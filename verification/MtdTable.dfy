/** The partition table while commands edit it: sorted insertion, deletion, and the
    current partition that has to stay the same one. */
module MtdTable {
  import opened Machine
  import opened MtdText
  import opened MtdParts
  import opened MtdRoundTrip

  // ------------------------------------------------------------- one device

  predicate Sorted(ps: seq<Part>) {
    forall i, j | 0 <= i < j < |ps| :: ps[i].offset <= ps[j].offset
  }

  predicate OneAtZero(ps: seq<Part>) {
    forall i, j | 0 <= i < j < |ps| :: !(ps[i].offset == 0 == ps[j].offset)
  }

  /** Every partition lies inside the device, without wrapping around. */
  predicate Inside(id: MtdId, p: Part) {
    0 < p.size && p.offset + p.size <= id.size < WORD
  }

  const MAX_PARTS: nat := 0xFFFF

  predicate DeviceOk(d: Device) {
    && d.numParts == |d.parts| && 0 < |d.parts| <= MAX_PARTS
    && Sorted(d.parts) && OneAtZero(d.parts)
    && forall i | 0 <= i < |d.parts| :: Inside(d.id, d.parts[i])
  }

  predicate DevicesOk(ds: seq<Device>) {
    DistinctDevices(ds) && forall i | 0 <= i < |ds| :: DeviceOk(ds[i])
  }

  /** Where SortAdd puts a partition. */
  function InsertAt(ps: seq<Part>, p: Part): (k: nat)
    ensures k <= |ps|
    ensures forall i | 0 <= i < k :: ps[i].offset < p.offset
    ensures k < |ps| ==> p.offset <= ps[k].offset
  {
    if ps == [] || p.offset <= ps[0].offset then 0 else 1 + InsertAt(ps[1..], p)
  }

  /** SortAdd refuses a second partition at offset 0 and otherwise inserts. */
  lemma {:induction false} SortAddInserts(ps: seq<Part>, p: Part)
    ensures var k := InsertAt(ps, p);
            SortAdd(ps, p) == if p.offset == 0 && k < |ps| && ps[k].offset == 0 then None
                              else Some(ps[..k] + [p] + ps[k..])
  {
    if ps == [] {
      assert ps[..0] + [p] + ps[0..] == [p];
    } else if p.offset <= ps[0].offset {
      assert ps[..0] + [p] + ps[0..] == [p] + ps;
    } else {
      SortAddInserts(ps[1..], p);
      var k := InsertAt(ps[1..], p);
      InsertShift(ps, p, k);
    }
  }

  lemma InsertShift(ps: seq<Part>, p: Part, k: nat)
    requires ps != [] && k < |ps|
    ensures [ps[0]] + (ps[1..][..k] + [p] + ps[1..][k..]) == ps[..k + 1] + [p] + ps[k + 1..]
  {
  }

  /** An insertion at a place that keeps the order. */
  lemma InsertKeepsOrder(ps: seq<Part>, p: Part, k: nat, qs: seq<Part>)
    requires Sorted(ps) && k <= |ps| && qs == ps[..k] + [p] + ps[k..]
    requires (forall i | 0 <= i < k :: ps[i].offset < p.offset) && (k < |ps| ==> p.offset <= ps[k].offset)
    ensures Sorted(qs)
  {
  }

  lemma InsertKeepsZero(ps: seq<Part>, p: Part, k: nat, qs: seq<Part>)
    requires Sorted(ps) && OneAtZero(ps) && k <= |ps| && qs == ps[..k] + [p] + ps[k..]
    requires (forall i | 0 <= i < k :: ps[i].offset < p.offset) && (k < |ps| ==> p.offset <= ps[k].offset)
    requires !(p.offset == 0 && k < |ps| && ps[k].offset == 0)
    ensures OneAtZero(qs)
  {
  }

  /** Inserting keeps the order, and one partition at offset 0. */
  lemma {:induction false} SortAddKeeps(ps: seq<Part>, p: Part)
    requires Sorted(ps) && OneAtZero(ps) && SortAdd(ps, p).Some?
    ensures Sorted(SortAdd(ps, p).value) && OneAtZero(SortAdd(ps, p).value)
    ensures multiset(SortAdd(ps, p).value) == multiset(ps) + multiset{p}
  {
    SortAddInserts(ps, p);
    var k := InsertAt(ps, p);
    var qs := ps[..k] + [p] + ps[k..];
    InsertKeepsOrder(ps, p, k, qs);
    InsertKeepsZero(ps, p, k, qs);
    InsertKeepsParts(ps, p, k);
  }

  lemma InsertKeepsParts(ps: seq<Part>, p: Part, k: nat)
    requires k <= |ps|
    ensures multiset(ps[..k] + [p] + ps[k..]) == multiset(ps) + multiset{p}
  {
    assert ps == ps[..k] + ps[k..];
  }

  // ---------------------------------------------------- parsed tables are in order

  lemma {:induction false} AddAllKeeps(ps: seq<Part>, more: seq<Part>)
    requires Sorted(ps) && OneAtZero(ps) && AddAll(ps, more).Some?
    ensures Sorted(AddAll(ps, more).value) && OneAtZero(AddAll(ps, more).value)
    ensures multiset(AddAll(ps, more).value) == multiset(ps) + multiset(more)
    decreases |more|
  {
    if more != [] {
      SortAddKeeps(ps, more[0]);
      AddAllKeeps(SortAdd(ps, more[0]).value, more[1..]);
      assert more == [more[0]] + more[1..];
    }
  }

  lemma {:induction false} ParsedInside(id: MtdId, s: string, offset: nat)
    requires ValidId(id) && offset < WORD && ParseParts(id, s, offset).Some?
    ensures forall p | p in ParseParts(id, s, offset).value.0 :: Inside(id, p)
    ensures |ParseParts(id, s, offset).value.0| <= |s|
    decreases |s|
  {
    if Head(s) != ';' && Head(s) != '\0' {
      var (p, rest) := PartParse(s).value;
      ValidatedFits(id, Placed(p, offset));
      ParsedInside(id, rest, EndOf(Validate(id, Placed(p, offset)).value));
    }
  }

  lemma BodyOk(id: MtdId, devices: seq<Device>, s: string)
    requires ValidId(id) && |s| <= MAX_PARTS && DeviceBody(id, devices, s).Some?
    ensures DeviceOk(DeviceBody(id, devices, s).value.0) && DeviceBody(id, devices, s).value.0.id == id
  {
    var parts := ParseParts(id, s, FirstOffset(devices, id)).value.0;
    ParsedInside(id, s, FirstOffset(devices, id));
    AddAllKeeps([], parts);
    var sorted := AddAll([], parts).value;
    assert |multiset(sorted)| == |multiset(parts)|;
    forall i | 0 <= i < |sorted| ensures Inside(id, sorted[i]) {
      assert sorted[i] in multiset(sorted);
    }
  }

  lemma {:induction false} DeviceIsNew(ds: seq<Device>, kind: DevType, num: nat, i: nat)
    requires DeviceFind(ds, kind, num) == None && i < |ds|
    ensures ds[i].id.kind != kind || ds[i].id.num != num
  {
    if i > 0 { DeviceIsNew(ds[1..], kind, num, i - 1); }
  }

  lemma ParsedDeviceOk(ids: seq<MtdId>, devices: seq<Device>, s: string)
    requires ValidIds(ids) && |s| <= MAX_PARTS && DeviceParse(ids, devices, s).Some?
    ensures DeviceOk(DeviceParse(ids, devices, s).value.0)
  {
    var c := Find(s, ':');
    BodyOk(FindId(ids, s[..c]).value, devices, s[c + 1..]);
  }

  lemma {:induction false} ParsedDevicesOk(ids: seq<MtdId>, devices: seq<Device>, s: string)
    requires ValidIds(ids) && |s| <= MAX_PARTS && DevicesOk(devices) && ParseDevices(ids, devices, s).Some?
    ensures DevicesOk(ParseDevices(ids, devices, s).value)
    ensures |ParseDevices(ids, devices, s).value| >= |devices| + if Head(s) == '\0' then 0 else 1
    decreases |s|
  {
    if Head(s) != '\0' {
      var (d, rest) := DeviceParse(ids, devices, s).value;
      ParsedDeviceOk(ids, devices, s);
      ExtendDevices(devices, d);
      ParsedDevicesOk(ids, devices + [d], rest);
    }
  }

  lemma {:induction false} ExtendDevices(devices: seq<Device>, d: Device)
    requires DevicesOk(devices) && DeviceOk(d) && DeviceFind(devices, d.id.kind, d.id.num) == None
    ensures DevicesOk(devices + [d])
  {
    forall i | 0 <= i < |devices| ensures devices[i].id.kind != d.id.kind || devices[i].id.num != d.id.num {
      DeviceIsNew(devices, d.id.kind, d.id.num, i);
    }
  }

  /** Every table that parse_mtdparts accepts is in order and not empty. */
  lemma ParsedTableOk(ids: seq<MtdId>, s: string)
    requires ValidIds(ids) && |s| <= MAX_PARTS && ParseMtdparts(ids, s).Some?
    ensures DevicesOk(ParseMtdparts(ids, s).value) && ParseMtdparts(ids, s).value != []
  {
    ParsedDevicesOk(ids, [], s[|PREFIX|..]);
  }

  // -------------------------------------------------------- the current partition

  /** The partition at index `c` before an insertion at `k`, or a deletion at `k`, is at this index after it. */
  function AfterInsert(c: nat, k: nat): nat { if k <= c then c + 1 else c }

  function AfterDelete(c: nat, k: nat): int { if k < c then c - 1 else c }

  /** current_partnum is an unsigned char. */
  function U8(x: int): nat { x % 256 }

  /** part_sort_add moves the index when the partition it inserts before does not start after the current one. */
  function InsertedIndex(ps: seq<Part>, p: Part, c: nat): nat
    requires c < |ps|
  {
    var k := InsertAt(ps, p);
    if k < |ps| && ps[k].offset <= ps[c].offset then U8(c + 1) else c
  }

  /** part_del moves the index when the deleted partition does not start after the current one. */
  function DeletedIndex(ps: seq<Part>, k: nat, c: nat): nat
    requires c < |ps| && k < |ps|
  {
    if k == c then 0 else if ps[k].offset <= ps[c].offset then U8(c - 1) else c
  }

  /** Inserting any partition keeps the current one current, unless its index is 255 and has to grow. */
  lemma {:induction false} InsertKeepsCurrent(ps: seq<Part>, p: Part, c: nat)
    requires Sorted(ps) && c < |ps| && c < 256
    ensures var k := InsertAt(ps, p);
            && (InsertedIndex(ps, p, c) == AfterInsert(c, k) <==> !(k <= c && c == 255))
            && (ps[..k] + [p] + ps[k..])[AfterInsert(c, k)] == ps[c]
  {
    var k := InsertAt(ps, p);
    if k <= c {
      assert k < c ==> ps[k].offset <= ps[c].offset;
    } else if k < |ps| {
      assert ps[c].offset < p.offset <= ps[k].offset;
    }
  }

  /** Deleting another partition keeps the current one current, unless it starts at
      the same offset and comes after it. */
  lemma DeleteKeepsCurrent(ps: seq<Part>, k: nat, c: nat)
    requires Sorted(ps) && c < |ps| && c < 256 && k < |ps| && k != c
    ensures DeletedIndex(ps, k, c) == AfterDelete(c, k) <==> !(c < k && ps[k].offset == ps[c].offset)
    ensures (ps[..k] + ps[k + 1..])[AfterDelete(c, k)] == ps[c]
  {
  }

  /** When the current one itself is deleted, the first one becomes current. */
  lemma CurrentDeleted(ps: seq<Part>, c: nat)
    requires c < |ps|
    ensures DeletedIndex(ps, c, c) == 0
  {
  }

  /** With rising offsets, deletion of another partition is always right. */
  lemma RisingDeleteKeepsCurrent(ps: seq<Part>, k: nat, c: nat)
    requires Rising(ps) && c < |ps| && c < 256 && k < |ps| && k != c
    ensures DeletedIndex(ps, k, c) == AfterDelete(c, k)
  {
  }

  /** The exception is real: the first of two partitions at one offset is current, the second is deleted,
      and the index drops below zero. */
  lemma TieLosesCurrent(a: Part, b: Part)
    requires a.offset == b.offset
    ensures DeletedIndex([a, b], 1, 0) == 255
  {
  }

  // ------------------------------------------------------------ global numbering

  /** Partitions on the devices before device `k`. */
  function Before(ds: seq<Device>, k: nat): nat
    requires k <= |ds|
  {
    if k == 0 then 0 else Before(ds, k - 1) + ds[k - 1].numParts
  }

  /** A count kept in an unsigned short. */
  function Short(n: nat): nat { n % 0x1_0000 }

  /** The number that is stored is the index exactly for the first 65536 partitions. */
  lemma NumberIsExact(ds: seq<Device>, k: nat, c: nat)
    requires k < |ds|
    ensures Short(Before(ds, k) + c) == Before(ds, k) + c <==> Before(ds, k) + c <= 65535
  {
  }

  lemma ShortAdd(a: nat, b: nat)
    ensures Short(Short(a) + b) == Short(a + b)
  {
  }

  function AllParts(ds: seq<Device>): seq<Part> {
    if ds == [] then [] else AllParts(ds[..|ds| - 1]) + ds[|ds| - 1].parts
  }

  /** mtddevnum counts the partitions of all devices in list order. */
  lemma {:induction false} GlobalIndex(ds: seq<Device>, k: nat, c: nat)
    requires forall i | 0 <= i < |ds| :: ds[i].numParts == |ds[i].parts|
    requires k < |ds| && c < |ds[k].parts|
    ensures Before(ds, k) + c < |AllParts(ds)| && AllParts(ds)[Before(ds, k) + c] == ds[k].parts[c]
    decreases |ds|
  {
    var front := ds[..|ds| - 1];
    AllPartsLength(front);
    BeforePrefix(ds, k);
    BeforePrefix(ds, |front|);
    if k < |front| {
      GlobalIndex(front, k, c);
      BeforePrefix(front, k);
      assert front[..k] == ds[..k];
    }
  }

  lemma {:induction false} BeforePrefix(ds: seq<Device>, k: nat)
    requires k <= |ds|
    ensures Before(ds, k) == Before(ds[..k], k)
    decreases k
  {
    if k > 0 {
      BeforePrefix(ds, k - 1);
      BeforePrefix(ds[..k], k - 1);
      assert ds[..k][..k - 1] == ds[..k - 1];
    }
  }

  lemma {:induction false} AllPartsLength(ds: seq<Device>)
    requires forall i | 0 <= i < |ds| :: ds[i].numParts == |ds[i].parts|
    ensures |AllParts(ds)| == Before(ds, |ds|)
  {
    if ds != [] {
      AllPartsLength(ds[..|ds| - 1]);
      BeforePrefix(ds, |ds| - 1);
    }
  }

  // --------------------------------------------------------------- the table

  datatype Key = Key(kind: DevType, num: nat)

  function KeyOf(d: Device): Key { Key(d.id.kind, d.id.num) }

  /** Index of the device with this type and number, or the number of devices. */
  function IndexOf(ds: seq<Device>, key: Key): (k: nat)
    ensures k <= |ds| && (k < |ds| ==> KeyOf(ds[k]) == key)
    ensures forall i | 0 <= i < k :: KeyOf(ds[i]) != key
  {
    if ds == [] || KeyOf(ds[0]) == key then 0 else 1 + IndexOf(ds[1..], key)
  }

  class Table {
    var devices: seq<Device>
    var current: Option<Key>       // current_dev
    var partnum: nat               // current_partnum
    var mtddevnum: Option<nat>     // environment variables
    var mtddevname: Option<string>

    ghost predicate Valid()
      reads this
    {
      && DevicesOk(devices) && (current.None? <==> devices == [])
      && (current.Some? ==> Here() < |devices| && partnum < 256 && partnum < |devices[Here()].parts|)
    }

    ghost function Here(): nat
      requires current.Some?
      reads this
    {
      IndexOf(devices, current.value)
    }

    /** The numbering variables describe the current partition. */
    ghost predicate Indexed()
      requires Valid()
      reads this
    {
      if current.None? then mtddevnum == None && mtddevname == None
      else
        && mtddevnum == Some(Short(Before(devices, Here()) + partnum))
        && mtddevname == Some(devices[Here()].parts[partnum].name)
    }

    /** jffs2_devices_init. */
    constructor ()
      ensures Valid() && Indexed() && devices == []
    {
      devices, current, partnum, mtddevnum, mtddevname := [], None, 0, None, None;
    }

    /** index_partitions. */
    method IndexPartitions()
      requires Valid()
      modifies this`mtddevnum, this`mtddevname
      ensures Valid() && Indexed()
    {
      if current.None? {
        mtddevnum, mtddevname := None, None;
        return;
      }
      var i, num := PartsBefore();
      ShortAdd(Before(devices, i), partnum);
      num := Short(num + partnum);
      mtddevnum := Some(num);
      mtddevname := Some(devices[i].parts[partnum].name);
    }

    /** The place of the current device, and the partitions of the devices before it. */
    method PartsBefore() returns (i: nat, num: nat)
      requires Valid() && current.Some?
      ensures i == Here() && num == Short(Before(devices, i))
    {
      i, num := 0, 0;
      while KeyOf(devices[i]) != current.value
        invariant i <= Here() && num == Short(Before(devices, i))
        decreases |devices| - i
      {
        ShortAdd(Before(devices, i), devices[i].numParts);
        num := Short(num + devices[i].numParts);
        i := i + 1;
      }
    }

    /** After mtdparts_init parsed a table: the first partition of the first device is current. */
    method Load(ds: seq<Device>)
      requires DevicesOk(ds) && ds != []
      modifies this
      ensures Valid() && Indexed() && devices == ds && current == Some(KeyOf(ds[0])) && partnum == 0
    {
      devices, current, partnum := ds, Some(KeyOf(ds[0])), 0;
      IndexPartitions();
    }

    /** chpart. */
    method ChangePartition(k: nat, pnum: nat)
      requires Valid() && k < |devices| && pnum < |devices[k].parts| && pnum < 256
      modifies this
      ensures Valid() && Indexed() && devices == old(devices) && Here() == k && partnum == pnum
    {
      FoundAt(devices, k);
      current, partnum := Some(KeyOf(devices[k])), pnum;
      IndexPartitions();
    }

    /** part_sort_add on device `k`. */
    method PartSortAdd(k: nat, p: Part) returns (rc: int)
      requires Valid() && k < |devices| && |devices[k].parts| < MAX_PARTS && Inside(devices[k].id, p)
      modifies this
      ensures Valid() && current == old(current) && Here() == old(Here())
      ensures rc == if SortAdd(old(devices[k].parts), p).Some? then 0 else 1
      ensures rc == 0 ==> Indexed() && devices == old(devices)[k := WithParts(old(devices[k]), SortAdd(old(devices[k].parts), p).value)]
      ensures rc == 0 ==> partnum == if old(Here()) == k then old(InsertedIndex(devices[k].parts, p, partnum)) else old(partnum)
      ensures rc == 1 ==> devices == old(devices) && partnum == old(partnum)
    {
      var parts := devices[k].parts;
      var refused, i := FindPlace(parts, p);
      if refused { return 1; }
      var d := WithParts(devices[k], parts[..i] + [p] + parts[i..]);
      PartAdded(devices[k], p);
      var num := NumberAfterInsert(k, p, i);
      Update(k, d, num);
      return 0;
    }

    /** current_partnum when `p` is inserted at place `i` of device `k`. */
    method NumberAfterInsert(k: nat, p: Part, i: nat) returns (num: nat)
      requires Valid() && k < |devices| && i == InsertAt(devices[k].parts, p)
      ensures num == if Here() == k then InsertedIndex(devices[k].parts, p, partnum) else partnum
      ensures num < 256 && num < if Here() == k then |devices[k].parts| + 1 else |devices[Here()].parts|
    {
      var parts := devices[k].parts;
      num := partnum;
      FoundAt(devices, k);
      if i < |parts| && KeyOf(devices[k]) == current.value && parts[i].offset <= parts[partnum].offset {
        num := U8(num + 1);
      }
    }

    /** Put an edited device into the table, with the current index that goes with it. */
    method Update(k: nat, d: Device, num: nat)
      requires Valid() && k < |devices| && DeviceOk(d) && d.id == devices[k].id
      requires num < 256 && num < |(if Here() == k then d else devices[Here()]).parts|
      modifies this
      ensures Valid() && Indexed() && devices == old(devices)[k := d] && partnum == num
      ensures current == old(current) && Here() == old(Here())
    {
      Replaced(devices, k, d);
      devices, partnum := devices[k := d], num;
      IndexPartitions();
    }

    /** part_del: delete partition `i` of device `k`. Deleting the only one deletes the device. */
    method PartDel(k: nat, i: nat)
      requires Valid() && k < |devices| && i < |devices[k].parts|
      requires Here() == k && partnum == 0 && i > 0 ==> devices[k].parts[i].offset != devices[k].parts[0].offset
      modifies this
      ensures Valid() && Indexed()
      ensures old(|devices[k].parts|) > 1 ==>
                && current == old(current) && Here() == old(Here())
                && devices == old(devices)[k := WithoutPart(old(devices[k]), i)]
                && partnum == if old(Here()) == k then old(DeletedIndex(devices[k].parts, i, partnum)) else old(partnum)
      ensures old(|devices[k].parts|) == 1 ==> devices == old(devices)[..k] + old(devices)[k + 1..]
    {
      if devices[k].numParts == 1 {
        DeviceDel(k);
        return;
      }
      var num := NumberAfterDelete(k, i);
      PartRemoved(devices[k], i);
      Update(k, WithoutPart(devices[k], i), num);
    }

    /** current_partnum when partition `i` of device `k` goes, and is not the only one. */
    method NumberAfterDelete(k: nat, i: nat) returns (num: nat)
      requires Valid() && k < |devices| && i < |devices[k].parts| && |devices[k].parts| > 1
      requires Here() == k && partnum == 0 && i > 0 ==> devices[k].parts[i].offset != devices[k].parts[0].offset
      ensures num == if Here() == k then DeletedIndex(devices[k].parts, i, partnum) else partnum
      ensures num < 256 && num < if Here() == k then |devices[k].parts| - 1 else |devices[Here()].parts|
    {
      var parts := devices[k].parts;
      num := partnum;
      FoundAt(devices, k);
      if KeyOf(devices[k]) == current.value {
        if partnum == i {
          num := 0;
        } else if parts[i].offset <= parts[partnum].offset {
          assert partnum > 0 by { assert i < partnum || parts[partnum].offset <= parts[i].offset; }
          num := U8(partnum - 1);
        }
      }
    }

    /** device_del. */
    method DeviceDel(k: nat)
      requires Valid() && k < |devices|
      modifies this
      ensures Valid() && Indexed() && devices == old(devices)[..k] + old(devices)[k + 1..]
      ensures old(Here()) != k ==> current == old(current) && partnum == old(partnum)
      ensures old(Here()) == k && devices != [] ==> Here() == 0 && partnum == 0
    {
      FoundAt(devices, k);
      DeviceRemoved(devices, k);
      var gone := KeyOf(devices[k]);
      devices := devices[..k] + devices[k + 1..];
      if current.value == gone {
        if |devices| == 0 {
          current := None;
        } else {
          current, partnum := Some(KeyOf(devices[0])), 0;
        }
      }
      IndexPartitions();
    }

    /** device_add: a device that is not in the list yet. */
    method DeviceAdd(d: Device)
      requires Valid() && DeviceOk(d) && IndexOf(devices, KeyOf(d)) == |devices|
      modifies this
      ensures Valid() && Indexed() && devices == old(devices) + [d]
      ensures old(devices) != [] ==> current == old(current) && partnum == old(partnum)
      ensures old(devices) == [] ==> current == Some(KeyOf(d)) && partnum == 0
    {
      DeviceAppended(devices, d);
      if |devices| == 0 {
        current, partnum := Some(KeyOf(d)), 0;
      }
      devices := devices + [d];
      IndexPartitions();
    }
  }

  function WithoutPart(d: Device, i: nat): Device
    requires i < |d.parts|
  {
    WithParts(d, d.parts[..i] + d.parts[i + 1..])
  }

  lemma PartRemoved(d: Device, i: nat)
    requires DeviceOk(d) && i < |d.parts| && |d.parts| > 1
    ensures DeviceOk(WithoutPart(d, i))
  {
  }

  lemma DeviceRemoved(ds: seq<Device>, k: nat)
    requires DevicesOk(ds) && k < |ds|
    ensures DevicesOk(ds[..k] + ds[k + 1..])
    ensures forall j | 0 <= j < |ds| && j != k ::
              IndexOf(ds[..k] + ds[k + 1..], KeyOf(ds[j])) == if j < k then j else j - 1
  {
    var ds' := ds[..k] + ds[k + 1..];
    forall j | 0 <= j < |ds| && j != k ensures IndexOf(ds', KeyOf(ds[j])) == if j < k then j else j - 1 {
      var j' := if j < k then j else j - 1;
      assert ds'[j'] == ds[j];
      FoundAt(ds', j');
    }
  }

  lemma {:induction false} DeviceAppended(ds: seq<Device>, d: Device)
    requires DevicesOk(ds) && DeviceOk(d) && IndexOf(ds, KeyOf(d)) == |ds|
    ensures DevicesOk(ds + [d])
    ensures forall j | 0 <= j < |ds| :: IndexOf(ds + [d], KeyOf(ds[j])) == j
    ensures IndexOf(ds + [d], KeyOf(d)) == |ds|
  {
    var ds' := ds + [d];
    assert forall i | 0 <= i < |ds| :: KeyOf(ds[i]) != KeyOf(d);
    forall j | 0 <= j < |ds'| ensures IndexOf(ds', KeyOf(ds'[j])) == j {
      FoundAt(ds', j);
    }
    assert forall j | 0 <= j < |ds| :: ds'[j] == ds[j];
    assert ds'[|ds|] == d;
  }

  /** Where the list of one device takes the new partition. */
  method FindPlace(parts: seq<Part>, p: Part) returns (refused: bool, i: nat)
    ensures refused <==> SortAdd(parts, p) == None
    ensures !refused ==> i == InsertAt(parts, p) && SortAdd(parts, p) == Some(parts[..i] + [p] + parts[i..])
  {
    SortAddInserts(parts, p);
    i := 0;
    while i < |parts|
      invariant i <= |parts| && forall j | 0 <= j < i :: parts[j].offset < p.offset
    {
      if p.offset == parts[i].offset && parts[i].offset == 0 { return true, i; }
      if p.offset <= parts[i].offset { return false, i; }
      i := i + 1;
    }
    refused := false;
  }

  function WithParts(d: Device, ps: seq<Part>): Device {
    d.(parts := ps, numParts := |ps|)
  }

  lemma {:induction false} FoundAt(ds: seq<Device>, k: nat)
    requires DistinctDevices(ds) && k < |ds|
    ensures IndexOf(ds, KeyOf(ds[k])) == k
  {
  }

  /** A device with a partition added in order. */
  lemma {:induction false} PartAdded(d: Device, p: Part)
    requires DeviceOk(d) && |d.parts| < MAX_PARTS && Inside(d.id, p) && SortAdd(d.parts, p).Some?
    ensures DeviceOk(WithParts(d, SortAdd(d.parts, p).value))
  {
    var ps, k := SortAdd(d.parts, p).value, InsertAt(d.parts, p);
    SortAddKeeps(d.parts, p);
    SortAddInserts(d.parts, p);
    forall i | 0 <= i < |ps| ensures Inside(d.id, ps[i]) {
      if i < k { assert ps[i] == d.parts[i]; } else if i > k { assert ps[i] == d.parts[i - 1]; }
    }
  }

  lemma Replaced(ds: seq<Device>, k: nat, d: Device)
    requires DevicesOk(ds) && k < |ds| && DeviceOk(d) && d.id == ds[k].id
    ensures DevicesOk(ds[k := d])
    ensures forall key :: IndexOf(ds[k := d], key) == IndexOf(ds, key)
  {
    forall key ensures IndexOf(ds[k := d], key) == IndexOf(ds, key) {
      SameKeys(ds, ds[k := d], key);
    }
  }

  lemma {:induction false} SameKeys(ds: seq<Device>, ds': seq<Device>, key: Key)
    requires |ds| == |ds'| && forall i | 0 <= i < |ds| :: KeyOf(ds[i]) == KeyOf(ds'[i])
    ensures IndexOf(ds, key) == IndexOf(ds', key)
  {
  }
}
