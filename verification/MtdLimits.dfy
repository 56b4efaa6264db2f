/** Which partitions, sizes and texts are accepted, in plain numbers, and what is printed, character by character. */
module MtdLimits {
  import opened Machine
  import opened MtdText
  import opened MtdParts
  import opened Flash
  import MtdRoundTrip
  import MtdCache

  // ------------------------------------------------------------- validation

  /** On NAND a partition of given size is accepted exactly when it is inside the device and begins and ends on erase
      blocks. */
  lemma BlockPartitionExactly(id: MtdId, p: Part, e: nat)
    requires ValidId(id) && id.geometry == Blocks(e) && p.offset < WORD && p.size < 0xFFFF_FFFF
    ensures Validate(id, p).Some? <==>
            0 < p.size && p.offset + p.size <= id.size && p.offset % e == 0 && (p.offset + p.size) % e == 0
  {
    if p.offset % e == 0 { EndsOnBlock(p.offset, p.size, e); }
  }

  lemma EndsOnBlock(offset: nat, size: nat, e: nat)
    requires e > 0 && offset % e == 0
    ensures size % e == 0 <==> (offset + size) % e == 0
  {
    var q := offset / e;
    assert offset == e * q;
    ModUnique(offset + size, e, q + size / e, size % e);
  }

  /** On NOR exactly when it begins with one sector and ends with another. */
  lemma SectorPartitionExactly(id: MtdId, p: Part, b: Bank)
    requires ValidId(id) && id.geometry == Sectors(b) && p.offset < WORD && p.size < 0xFFFF_FFFF
    ensures Validate(id, p).Some? <==>
            && 0 < p.size && p.offset + p.size <= id.size
            && (exists i | 0 <= i < |b.start| :: b.start[i] == b.start[0] + p.offset)
            && (exists i: nat | i < |b.start| :: SectorEnd(b, i) == b.start[0] + p.offset + p.size - 1)
  {
    if 0 < p.size { EndsOnSector(b, p.offset + p.size); }
  }

  lemma EndsOnSector(b: Bank, end: nat)
    requires WellFormed(b) && end > 0
    ensures StartsSector(b, end) || b.size == end <==> exists i: nat | i < |b.start| :: SectorEnd(b, i) == b.start[0] + end - 1
  {
    if i :| 0 <= i < |b.start| && b.start[i] == b.start[0] + end {
      assert SectorEnd(b, i - 1) == b.start[0] + end - 1;
    }
    if b.size == end { assert SectorEnd(b, Last(b)) == b.start[0] + end - 1; }
    if i: nat :| i < |b.start| && SectorEnd(b, i) == b.start[0] + end - 1 {
      if i < Last(b) { assert b.start[i + 1] == b.start[0] + end; }
    }
  }

  /** The sector size kept with a partition is the size of the largest sector. */
  lemma {:induction false} LargestUpTo(b: Bank, n: nat) returns (i: nat)
    requires WellFormed(b) && 0 < n <= |b.start|
    ensures i < |b.start| && LargestSector(b, n) == Width(b, i)
    ensures forall j: nat | j + 1 < n || j == Last(b) :: Width(b, j) <= LargestSector(b, n)
  {
    if n == 1 {
      i := Last(b);
    } else {
      i := LargestUpTo(b, n - 1);
      if LargestSector(b, n - 1) < Width(b, n - 2) { i := n - 2; }
    }
  }

  function Width(b: Bank, i: nat): int
    requires WellFormed(b)
  {
    if i < |b.start| then SectorEnd(b, i) + 1 - b.start[i] else 0
  }

  lemma SectorSizeIsLargest(b: Bank) returns (i: nat)
    requires WellFormed(b)
    ensures i < |b.start| && SectorSize(Sectors(b)) == Width(b, i)
    ensures forall j: nat | j < |b.start| :: Width(b, j) <= SectorSize(Sectors(b))
  {
    i := LargestUpTo(b, |b.start|);
  }

  // ------------------------------------------------------------ sizes and texts

  /** Sizes from 4096 on are taken. */
  lemma LeastSize(n: nat, t: string)
    requires n < WORD && EndsNumber(t)
    ensures PartSize(Memsize(n) + t) == if n < 4096 then None else Some((n, t))
  {
    MemsizeRoundTrip(n, t);
    MtdRoundTrip.MemsizeHead(n, t);
  }

  /** mtdids may have 127 characters and mtdparts 511. */
  lemma LongestTexts(ids: string, parts: string)
    ensures MtdCache.TooLong(ids, Some(parts)) <==> |ids| >= 128 || |parts| >= 512
    ensures MtdCache.TooLong(ids, None) <==> |ids| >= 128
  {
  }

  /** A definition with all its pieces. */
  lemma OneDefinition()
    ensures PartText(0, Part("b", false, 0x20_0000, 0x40_0000, true, 0), "") == "2m@4m(b)ro"
  {
    var p := Part("b", false, 0x20_0000, 0x40_0000, true, 0);
    assert Memsize(0x20_0000) == "2m" && Memsize(0x40_0000) == "4m";
    assert FlagText(p, "") == "ro";
    assert NameText(p, "ro") == "(b)ro";
    assert OffsetText(0, p, "(b)ro") == "@4m(b)ro";
  }

  /** Definitions are separated by commas ... */
  lemma TwoDefinitions(ps: seq<Part>, t: string)
    requires |ps| == 2
    ensures PartsText(0, ps, t) == PartText(0, ps[0], "," + PartText(EndOf(ps[0]), ps[1], t))
  {
    var tail := ps[1..];
    assert tail == [ps[1]];
    assert PartsText(EndOf(ps[0]), tail, t) == PartText(EndOf(ps[0]), ps[1], t);
  }

  /** ... and devices by semicolons, with their names in front. */
  lemma TwoDevices(a: Device, b: Device, t: string)
    ensures Generate([a, b]) == "mtdparts=" + DeviceText(a, ";" + DeviceText(b, ""))
    ensures DeviceText(a, t) == a.id.name + (":" + PartsText(0, a.parts, t))
  {
    var ds := [a, b];
    assert ds[1..] == [b];
    assert DevicesText(ds[1..]) == DeviceText(b, "");
  }
}
