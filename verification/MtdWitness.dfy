/** Concrete tables and environments on which the exact conditions fail: tables that are not
    rebuilt from their text, and environments in which the cache keeps a wrong table. */
module MtdWitness {
  import opened Machine
  import opened MtdText
  import opened MtdParts
  import opened MtdRoundTrip
  import opened MtdIds
  import opened EnvImage
  import opened EnvStore
  import opened EnvPointer
  import opened MtdCache

  // -------------------------------------------------------------- one device

  /** The text of a table with one device. */
  function TextOf(id: MtdId, body: string): string { PREFIX + (id.name + ([':'] + body)) }

  lemma {:induction false} SingleDevice(id: MtdId, body: string, parts: seq<Part>, sorted: seq<Part>)
    requires ValidId(id) && ':' !in id.name && '\0' !in id.name && parts != []
    requires ParseParts(id, body, 0) == Some((parts, "")) && AddAll([], parts) == Some(sorted)
    ensures ValidIds([id]) && ParseMtdparts([id], TextOf(id, body)) == Some([Device(id, |sorted|, sorted)])
  {
    var s := id.name + ([':'] + body);
    OneDevice(id, body, parts, sorted);
    assert TextOf(id, body)[|PREFIX|..] == s;
    OneIsAll(id, s, Device(id, |sorted|, sorted));
  }

  lemma {:induction false} OneDevice(id: MtdId, body: string, parts: seq<Part>, sorted: seq<Part>)
    requires ValidId(id) && ':' !in id.name && parts != []
    requires ParseParts(id, body, 0) == Some((parts, "")) && AddAll([], parts) == Some(sorted)
    ensures ValidIds([id])
    ensures DeviceParse([id], [], id.name + ([':'] + body)) == Some((Device(id, |sorted|, sorted), ""))
  {
    NameThenBody(id.name, body);
    OneBody(id, body, parts, sorted);
    assert FindId([id], id.name) == Some(id);
  }

  lemma NameThenBody(name: string, body: string)
    requires ':' !in name
    ensures var s := name + ([':'] + body);
            Find(s, ':') == |name| < |s| && s[..|name|] == name && s[|name| + 1..] == body
  {
    FindIn(name, ':', body);
  }

  lemma {:induction false} OneBody(id: MtdId, body: string, parts: seq<Part>, sorted: seq<Part>)
    requires ValidId(id) && parts != []
    requires ParseParts(id, body, 0) == Some((parts, "")) && AddAll([], parts) == Some(sorted)
    ensures DeviceBody(id, [], body) == Some((Device(id, |sorted|, sorted), ""))
  {
    assert FirstOffset([], id) == 0;
  }

  lemma {:induction false} OneIsAll(id: MtdId, s: string, d: Device)
    requires ValidIds([id]) && Head(s) != '\0' && DeviceParse([id], [], s) == Some((d, ""))
    ensures ParseDevices([id], [], s) == Some([d])
  {
    assert [] + [d] == [d];
    assert ParseDevices([id], [d], "") == Some([d]);
    DeviceThenMore([id], [], s, d, "");
  }

  /** A device that is one partition, given as '-'. */
  lemma WholeDevice(id: MtdId, p: Part)
    requires TablePart(id, p) && !p.autoName && p.offset == 0 && p.size == id.size
    requires ':' !in id.name && '\0' !in id.name
    ensures ValidIds([id]) && ParseMtdparts([id], TextOf(id, RestText(0, p, ""))) == Some([Device(id, 1, [p])])
  {
    RestResolves(id, 0, p);
    assert [p][1..] == [];
    assert AddAll([p], []) == Some([p]);
    SingleDevice(id, RestText(0, p, ""), [p], [p]);
  }

  // -------------------------------------------------- tables that are not rebuilt

  const SMALL: MtdId := MtdId(Nand, 0, 2048, "n", Blocks(512))
  const TINY: Part := Part("x", false, 2048, 0, false, 512)

  /** "mtdparts=n:-(x)" on a device of 2048 bytes is accepted, and the printed "2k(x)" is not. */
  lemma SmallRestIsLost()
    ensures ValidIds([SMALL]) && ParseMtdparts([SMALL], TextOf(SMALL, RestText(0, TINY, ""))) == Some([Device(SMALL, 1, [TINY])])
    ensures !Rebuilds([SMALL], [Device(SMALL, 1, [TINY])])
  {
    assert TablePart(SMALL, TINY);
    WholeDevice(SMALL, TINY);
    assert !Legible([TINY]) by { assert [TINY][0].size < MIN_PART_SIZE; }
    NotRebuilt(SMALL, [TINY]);
  }

  lemma NotRebuilt(id: MtdId, ps: seq<Part>)
    requires ValidId(id) && ':' !in id.name && '\0' !in id.name
    requires ps != [] && TableParts(id, ps) && Rising(ps) && !Legible(ps)
    ensures ValidIds([id]) && !Rebuilds([id], [Device(id, |ps|, ps)])
  {
    var ds := [Device(id, |ps|, ps)];
    assert FindId([id], id.name) == Some(id);
    assert PlainDevice([id], ds[0]);
    assert PlainTable([id], ds);
    RoundTripExactly([id], ds);
  }

  const LARGE: MtdId := MtdId(Nand, 0, 0xFFFF_FFFF, "n", Blocks(0xFFFF))
  const ALL: Part := Part("a", false, 0xFFFF_FFFF, 0, false, 0xFFFF)
  const BLOCK: Part := Part("b", false, 0xFFFF, 0xFFFF, false, 0xFFFF)

  /** On a device of 4 GB less one byte a block and then '-' from offset 0 are accepted, and the second
      partition comes first in the table ... */
  lemma WholeBeforeBlockParses()
    ensures ValidIds([LARGE])
    ensures ParseMtdparts([LARGE], TextOf(LARGE, PartText(0, BLOCK, "," + RestText(EndOf(BLOCK), ALL, ""))))
      == Some([Device(LARGE, 2, [ALL, BLOCK])])
  {
    assert TablePart(LARGE, ALL);
    var rest := RestText(EndOf(BLOCK), ALL, "");
    RestResolves(LARGE, EndOf(BLOCK), ALL);
    BlockThenRest(rest);
    Reordered();
    SingleDevice(LARGE, PartText(0, BLOCK, "," + rest), [BLOCK, ALL], [ALL, BLOCK]);
  }

  lemma {:induction false} BlockThenRest(rest: string)
    requires ParseParts(LARGE, rest, EndOf(BLOCK)) == Some(([ALL], ""))
    ensures ParseParts(LARGE, PartText(0, BLOCK, "," + rest), 0) == Some(([BLOCK, ALL], ""))
  {
    assert GoodPart(LARGE, BLOCK);
    assert ("," + rest)[1..] == rest;
    var q := PartThenMore(LARGE, 0, BLOCK, "," + rest, [ALL], "");
    assert q == BLOCK;
    assert [BLOCK] + [ALL] == [BLOCK, ALL];
  }

  lemma LargeParts()
    ensures TableParts(LARGE, [ALL, BLOCK]) && Rising([ALL, BLOCK]) && !Legible([ALL, BLOCK])
  {
    var ps := [ALL, BLOCK];
    assert TablePart(LARGE, ALL) && TablePart(LARGE, BLOCK);
    assert !Separable(ps) by { assert ps[0].size == SIZE_REMAINING; }
  }

  /** ... where it prints as the size that stands for "the rest", so the text is refused. */
  lemma WholeBeforeBlockIsLost()
    ensures ValidIds([LARGE]) && !Rebuilds([LARGE], [Device(LARGE, 2, [ALL, BLOCK])])
  {
    LargeParts();
    NotRebuilt(LARGE, [ALL, BLOCK]);
  }

  lemma Reordered()
    ensures AddAll([], [BLOCK, ALL]) == Some([ALL, BLOCK])
  {
    assert [BLOCK, ALL][1..] == [ALL] && [ALL][1..] == [];
    assert SortAdd([], BLOCK) == Some([BLOCK]);
    assert [ALL] + [BLOCK] == [ALL, BLOCK];
    assert SortAdd([BLOCK], ALL) == Some([ALL, BLOCK]);
    assert AddAll([ALL, BLOCK], []) == Some([ALL, BLOCK]);
    assert AddAll([BLOCK], [ALL]) == Some([ALL, BLOCK]);
  }

  // ------------------------------------------------------- the copy of mtdparts

  /** One NAND device of 1 MB with blocks of 64 KB. */
  const NAND: MtdId := MtdId(Nand, 0, 0x10_0000, "n", Blocks(0x1_0000))
  const ROOT: Part := Part("rootfs", false, 0x10_0000, 0, false, 0x1_0000)
  const BOARD: Hardware := map[(Nand, 0) := (0x10_0000, Blocks(0x1_0000))]
  const IDS_TEXT: string := "nand0=n"

  lemma IdsParse()
    ensures ValidHardware(BOARD) && ValidIds([NAND]) && ParseMtdids(BOARD, IDS_TEXT) == Some([NAND])
  {
    StartsNand();
    NumberAndName();
    assert IdParse(IDS_TEXT) == Some(((Nand, 0), "=n"));
    assert [] + [NAND] == [NAND];
    assert IdEntries(BOARD, [NAND], "") == Some([NAND]);
  }

  lemma StartsNand()
    ensures StartsWith(IDS_TEXT, "nand") && IDS_TEXT[4..] == "0=n"
  {
    var s, w := IDS_TEXT, "nand";
    assert w[1..][1..][1..][1..] == "" && s[1..][1..][1..][0] == 'd' == w[1..][1..][1..][0];
    assert StartsWith(s[1..][1..][1..], w[1..][1..][1..]);
    assert s[1..][1..][0] == 'n' == w[1..][1..][0] && StartsWith(s[1..][1..], w[1..][1..]);
    assert s[1..][0] == 'a' == w[1..][0] && StartsWith(s[1..], w[1..]);
  }

  lemma NumberAndName()
    ensures StrToUl("0=n") == (0, "=n") && IdName(BOARD, (Nand, 0), "=n") == Some((NAND, ""))
  {
    assert "0=n"[1..] == "=n" && "=n"[1..] == "n" && "n"[1..] == "";
    assert Digits("=n", Octal, 0) == (0, "=n");
    assert Find("n", ',') == 1 + Find("", ',') == 1;
    assert "n"[..1] == "n";
  }

  /** "mtdparts=n:-(rootfs)" */
  function PartsText0(): string { TextOf(NAND, RestText(0, ROOT, "")) }

  lemma PartsText0Is()
    ensures PartsText0() == "mtdparts=n:-(rootfs)" && |PartsText0()| == 20 && NUL !in PartsText0()
  {
    RestTextIs();
    Prefixed();
    Literal("mtdparts=n:-(rootfs)");
  }

  lemma RootNameIs()
    ensures NameText(ROOT, "") == "(rootfs)"
  {
    assert ")" + "" == ")";
    assert "rootfs" + ")" == "rootfs)";
  }

  lemma RestTextIs()
    ensures RestText(0, ROOT, "") == "-(rootfs)"
  {
    RootNameIs();
    assert FlagText(ROOT, "") == "" && OffsetText(0, ROOT, "(rootfs)") == "(rootfs)";
  }

  lemma Prefixed()
    ensures TextOf(NAND, "-(rootfs)") == "mtdparts=n:-(rootfs)"
  {
    assert [':'] + "-(rootfs)" == ":-(rootfs)";
    assert "n" + ":-(rootfs)" == "n:-(rootfs)";
  }

  lemma Literal(v: string)
    requires v == "mtdparts=n:-(rootfs)"
    ensures |v| == 20 && NUL !in v
  {
  }

  /** The bindings partition=nand0,0 mtdids=nand0=n mtdparts=<v>, in this order. */
  function Bindings(v: string): seq<Binding> {
    [Binding("partition", "nand0,0"), Binding("mtdids", IDS_TEXT), Binding("mtdparts", v)]
  }

  lemma Places(v: string)
    ensures var bs := Bindings(v);
            && IndexOf(bs, SAVED[0]) == 0 && IndexOf(bs, IDS) == 1 && IndexOf(bs, PARTS) == 2
            && IndexOf(bs, SAVED[1]) == IndexOf(bs, SAVED[2]) == 3
  {
    SavedNames();
    var bs := Bindings(v);
    assert SAVED[0] != SAVED[1] && SAVED[0] != SAVED[2];
    assert bs[1..] == [bs[1], bs[2]] && bs[1..][1..] == [bs[2]] && bs[1..][1..][1..] == [];
    assert IndexOf([], SAVED[1]) == IndexOf([], SAVED[2]) == 0;
    assert IndexOf([bs[2]], PARTS) == 0 && IndexOf([bs[2]], SAVED[1]) == IndexOf([bs[2]], SAVED[2]) == 1;
    assert IndexOf([bs[1], bs[2]], PARTS) == 1 && IndexOf([bs[1], bs[2]], IDS) == 0;
    assert IndexOf([bs[1], bs[2]], SAVED[1]) == IndexOf([bs[1], bs[2]], SAVED[2]) == 2;
  }

  /** mtdparts is moved by the length of partition, 18 characters. */
  lemma MovedBy(v: string)
    ensures Shift(Bindings(v), SAVED, PARTS) == Step(Bindings(v), SAVED[0], PARTS) == 18
    ensures Lookup(Bindings(v), PARTS) == Some(v) && Lookup(Bindings(v), IDS) == Some(IDS_TEXT)
  {
    Places(v);
    var bs := Bindings(v);
    assert |Text(bs[0])| == 17;
    assert SAVED[1..] == [SAVED[1], SAVED[2]] && SAVED[1..][1..] == [SAVED[2]] && SAVED[1..][1..][1..] == [];
    assert Shift(bs, SAVED[1..][1..], PARTS) == 0 && Shift(bs, SAVED[1..], PARTS) == 0;
  }

  /** The environment with these bindings and no byte more. */
  ghost function Disturbed(v: string): (e: Env)
    requires NUL !in v
    ensures ValidEnv(e) && e.bindings == Bindings(v)
  {
    SavedNames();
    Env(Image(Bindings(v)), Bindings(v))
  }

  lemma Text0Parses()
    ensures ParseMtdparts([NAND], PartsText0()) == Some([Device(NAND, 1, [ROOT])])
  {
    assert TablePart(NAND, ROOT);
    WholeDevice(NAND, ROOT);
  }

  lemma Disturbs(v: string)
    requires NUL !in v
    ensures Moved(Disturbed(v)) == 18 && PartsVar(Disturbed(v)) == Some(v)
    ensures IdsVar(None, Disturbed(v)) == Some(IDS_TEXT)
  {
    MovedBy(v);
  }

  lemma OnePrefix0()
    ensures OnePrefix(PartsText0()) && PartsText0()[18..] == "s)"
  {
    PartsText0Is();
    var v := "mtdparts=n:-(rootfs)";
    assert forall i | 0 < i < |v| :: v[i] != 'm';
    forall i | 0 < i <= |v| ensures !(PREFIX <= v[i..]) {
      assert i < |v| ==> v[i..][0] == v[i];
    }
  }

  /** The first call parses mtdparts and remembers "s)". If mtdparts is then set to "s)", which is no table
      at all, the next call returns 0 and keeps the table of the first. */
  lemma WrongTableIsKept() returns (e: Env, f: Env, st: Cache)
    ensures ValidHardware(BOARD) && ValidIds(st.ids) && ValidEnv(e) && ValidEnv(f)
    ensures e.bindings == Bindings(PartsText0()) && f.bindings == [Binding("mtdids", IDS_TEXT), Binding("mtdparts", "s)")]
    ensures Init(BOARD, None, EMPTY, e) == (st, 0) && st.devices == [Device(NAND, 1, [ROOT])]
    ensures Init(BOARD, None, st, f) == (st, 0) && Fresh(BOARD, IDS_TEXT, "s)") == None
  {
    OnePrefix0();
    PartsText0Is();
    IdsParse();
    Text0Parses();
    e, f, st := TableIsKept(PartsText0(), "s)", [NAND], [Device(NAND, 1, [ROOT])]);
  }

  lemma TableIsKept(v: string, w: string, ids: seq<MtdId>, ds: seq<Device>) returns (e: Env, f: Env, st: Cache)
    requires 18 < |v| < MTDPARTS_MAXLEN && NUL !in v && OnePrefix(v) && w == v[18..] && ValidHardware(BOARD)
    requires ParseMtdids(BOARD, IDS_TEXT) == Some(ids) && ValidIds(ids) && ParseMtdparts(ids, v) == Some(ds)
    ensures ValidIds(st.ids) && ValidEnv(e) && ValidEnv(f)
    ensures e.bindings == Bindings(v) && f.bindings == [Binding(IDS, IDS_TEXT), Binding(PARTS, w)]
    ensures Init(BOARD, None, EMPTY, e) == (st, 0) && st.devices == ds
    ensures Init(BOARD, None, st, f) == (st, 0) && Fresh(BOARD, IDS_TEXT, w) == None
  {
    Disturbs(v);
    e, f := Disturbed(v), Two(IDS_TEXT, w);
    st := Cache(ids, ds, IDS_TEXT, w);
    FirstTwoCalls(BOARD, None, e, f, IDS_TEXT, v, ids, ds);
  }

  /** With a text of at most 16 characters the same move does no harm: its old bytes are left behind the
      image, and the copy is true. */
  lemma ShortTextIsLeft(v: string)
    requires NUL !in v && |v| <= 16
    ensures Moved(Disturbed(v)) > |v| && PartsVar(Disturbed(v)) == Some(v) && Copied(None, Disturbed(v)) == v
  {
    MovedBy(v);
    Places(v);
    SavedNames();
    OldTextIsLeft(Disturbed(v), SAVED, PARTS);
  }
}
