/** mtdparts_init on the byte array of the environment. */
module MtdInit {
  import opened Machine
  import opened MtdText
  import opened MtdParts
  import opened MtdIds
  import opened EnvImage
  import opened EnvStore
  import opened EnvPointer
  import opened MtdCache
  import MtdNames
  import MtdRun
  import MtdTable

  /** The environment after a parse: the first partition of the first device is current. */
  ghost function SavedFirst(e: Env, d: Device): (e': Env)
    requires ValidEnv(e) && d.parts != []
    ensures ValidEnv(e')
  {
    SavedNames();
    FirstLegal(d);
    Added(Added(Added(e, SAVED[0], FirstOf(d)), SAVED[1], "0"), SAVED[2], CString(d.parts[0].name, 0))
  }

  /** The value of `partition` for the first partition of a device. */
  function FirstOf(d: Device): string {
    TypeName(d.id.kind) + Number(d.id.num) + ",0"
  }

  lemma FirstLegal(d: Device)
    requires d.parts != []
    ensures NUL !in FirstOf(d) && NUL !in CString(d.parts[0].name, 0) && NUL !in "0"
  {
    NumberIsDigits(d.id.num);
    CStringNoNul(d.parts[0].name, 0);
  }

  /** The text in `partition` names the device, and its partition 0. */
  lemma FirstOfReads(d: Device)
    requires d.id.num < 256
    ensures IdParse(FirstOf(d)) == Some(((d.id.kind, d.id.num), ",0"))
  {
    MtdNames.IdRoundTrip(d.id.kind, d.id.num, ",0");
    assert TypeName(d.id.kind) + Number(d.id.num) + ",0" == TypeName(d.id.kind) + (Number(d.id.num) + ",0");
  }

  lemma AddedIs(e: Env, name: string, value: string)
    requires ValidEnv(e) && '=' !in name && NUL !in name && NUL !in value && Lookup(e.bindings, name) == None
    ensures |Image(e.bindings + [Binding(name, value)])| <= |e.data| ==>
              Added(e, name, value).bindings == e.bindings + [Binding(name, value)]
  {
    OthersAbsent(e.bindings, name);
  }

  lemma ImageGrows(bs: seq<Binding>, b: Binding)
    ensures bs != [] ==> |Image(bs)| <= |Image(bs + [b])|
  {
    FlatAppend(bs, [b]);
  }

  /** Where there is room, a parse leaves the three variables with the device, the number 0 and the name of the first
      partition. */
  lemma SavedAre(e: Env, d: Device, text: string)
    requires ValidEnv(e) && d.parts != [] && text == CString(d.parts[0].name, 0)
    requires Lookup(e.bindings, "partition") == Lookup(e.bindings, "mtddevnum") == Lookup(e.bindings, "mtddevname") == None
    requires var three := [Binding("partition", FirstOf(d)), Binding("mtddevnum", "0"), Binding("mtddevname", text)];
             |Image(e.bindings + three)| <= |e.data|
    ensures SavedFirst(e, d).bindings == e.bindings +
              [Binding("partition", FirstOf(d)), Binding("mtddevnum", "0"), Binding("mtddevname", text)]
  {
    SavedNames();
    FirstLegal(d);
    ThreeAdded(e, Binding(SAVED[0], FirstOf(d)), Binding(SAVED[1], "0"), Binding(SAVED[2], text));
  }

  lemma ThreeAdded(e: Env, b: Binding, c: Binding, f: Binding)
    requires ValidEnv(e) && Legal(b) && Legal(c) && Legal(f) && b.name != c.name && b.name != f.name && c.name != f.name
    requires Lookup(e.bindings, b.name) == Lookup(e.bindings, c.name) == Lookup(e.bindings, f.name) == None
    requires |Image(e.bindings + [b, c, f])| <= |e.data|
    ensures Added(Added(Added(e, b.name, b.value), c.name, c.value), f.name, f.value).bindings == e.bindings + [b, c, f]
  {
    var bs := e.bindings;
    assert bs + [b, c, f] == bs + [b] + [c] + [f];
    ImageGrows(bs + [b] + [c], f);
    ImageGrows(bs + [b], c);
    AddedIs(e, b.name, b.value);
    var e1 := Added(e, b.name, b.value);
    LookupAppend(bs, b, c.name);
    LookupAppend(bs, b, f.name);
    AddedIs(e1, c.name, c.value);
    LookupAppend(bs + [b], c, f.name);
    AddedIs(Added(e1, c.name, c.value), f.name, f.value);
  }

  /** What mtdparts_init does to the environment. */
  ghost function InitEnv(hw: Hardware, default: Option<string>, st: Cache, e: Env): (e': Env)
    requires Context(hw, default, st, e)
    ensures ValidEnv(e')
  {
    if IdsVar(default, e) == None then e
    else CoreEnv(hw, st, IdsVar(default, e).value, PartsVar(e), Settled(default, e))
  }

  ghost function CoreEnv(hw: Hardware, st: Cache, ids: string, parts: Option<string>, e: Env): (e': Env)
    requires ValidHardware(hw) && ValidIds(st.ids) && ValidEnv(e)
    ensures ValidEnv(e')
  {
    if TooLong(ids, parts) then e
    else
      match FreshIds(hw, st, ids)
      case None => Cleared(e)
      case Some(st1) =>
        FreshIdsValid(hw, st, ids);
        PartsEnv(st1, IdsChanged(st, ids), parts, e)
  }

  ghost function PartsEnv(st: Cache, changed: bool, parts: Option<string>, e: Env): (e': Env)
    requires ValidIds(st.ids) && ValidEnv(e) && (parts.Some? ==> |parts.value| < MTDPARTS_MAXLEN)
    ensures ValidEnv(e')
  {
    if parts.None? then (if st.lastParts != "" then Cleared(e) else e)
    else if st.lastParts != "" && st.lastParts == parts.value && !changed then e
    else AfterParse(Cleared(e), st.ids, parts.value)
  }

  /** ... once the variables are deleted and mtdparts is parsed. */
  ghost function AfterParse(e: Env, ids: seq<MtdId>, s: string): (e': Env)
    requires ValidEnv(e) && ValidIds(ids) && |s| < MTDPARTS_MAXLEN
    ensures ValidEnv(e')
  {
    match ParseMtdparts(ids, s)
    case None => e
    case Some(ds) =>
      FirstHasParts(ids, s);
      SavedFirst(e, ds[0])
  }

  lemma FirstHasParts(ids: seq<MtdId>, s: string)
    requires ValidIds(ids) && |s| < MTDPARTS_MAXLEN && ParseMtdparts(ids, s).Some?
    ensures ParseMtdparts(ids, s).value != [] && ParseMtdparts(ids, s).value[0].parts != []
  {
    MtdTable.ParsedTableOk(ids, s);
  }

  lemma ThreeRemoved(e: Env)
    requires ValidEnv(e)
    ensures Removed(Removed(Removed(e, SAVED[0]), SAVED[1]), SAVED[2]) == Cleared(e)
  {
    assert SAVED[1..] == [SAVED[1], SAVED[2]] && SAVED[1..][1..] == [SAVED[2]] && SAVED[1..][1..][1..] == [];
    var e1 := Removed(e, SAVED[0]);
    var e2 := Removed(e1, SAVED[1]);
    assert RemovedAll(e2, SAVED[1..][1..]) == Removed(e2, SAVED[2]);
    assert RemovedAll(e1, SAVED[1..]) == RemovedAll(e2, SAVED[1..][1..]);
  }

  class Parser {
    const hw: Hardware
    const default: Option<string>    // MTDIDS_DEFAULT
    const cfg: Config
    const store: Store
    var ids: seq<MtdId>              // mtdids
    var devices: seq<Device>
    var lastIds: string
    var lastParts: string

    constructor (hw: Hardware, default: Option<string>, cfg: Config, store: Store)
      requires ValidHardware(hw) && ValidDefault(default) && store.Valid()
      ensures this.hw == hw && this.default == default && this.store == store && Valid() && State() == EMPTY
    {
      this.hw, this.default, this.cfg, this.store := hw, default, cfg, store;
      ids, devices, lastIds, lastParts := [], [], "", "";
    }

    ghost predicate Valid()
      reads this, store, store.data
    {
      ValidHardware(hw) && ValidDefault(default) && ValidIds(ids) && store.Valid()
    }

    ghost function State(): Cache
      reads this
    {
      Cache(ids, devices, lastIds, lastParts)
    }

    ghost function Here(): Env
      reads store, store.data
    {
      Env(store.data[..], store.bindings)
    }

    /** parse_mtdids: fill the list entry by entry. */
    method ParseIds(s: string) returns (rc: int)
      requires Valid()
      modifies this`ids, this`lastIds
      ensures Valid() && lastIds == "" && rc == if ParseMtdids(hw, s).Some? then 0 else 1
      ensures ids == LeftIds(hw, [], s)
    {
      ids, lastIds := [], "";
      rc := 1;
      var p := 0;
      assert s[0..] == s;
      while At(s, p) != '\0'
        invariant p <= |s| && Valid() && lastIds == "" && (rc == 0 || (rc == 1 && p == 0 && ids == []))
        invariant rc == 1 ==> s[p..] == s
        invariant IdEntries(hw, [], s) == IdEntries(hw, ids, s[p..])
        invariant LeftIds(hw, [], s) == LeftIds(hw, ids, s[p..])
        invariant rc == 0 ==> Head(s) != '\0'
        decreases |s| - p
      {
        assert Head(s[p..]) == At(s, p);
        var id, next, missing := ReadIdEntry(s, p);
        LeftStep(hw, ids, s[p..]);
        if missing { return 1; }
        if id == None {
          ids := [];
          return 1;
        }
        if Knows(ids, id.value.kind, id.value.num) {
          ids := [];
          return 1;
        }
        HardwareIsValid(id.value, s[p..]);
        ids, p, rc := ids + [id.value], next, 0;
      }
      assert Head(s[p..]) == At(s, p);
    }

    lemma HardwareIsValid(id: MtdId, s: string)
      requires ValidHardware(hw) && IdEntry(hw, s).Some? && IdEntry(hw, s).value.0 == id
      ensures ValidId(id)
    {
    }

    /** One entry; `missing` says that its device does not exist. */
    method ReadIdEntry(s: string, from: nat) returns (id: Option<MtdId>, end: nat, missing: bool)
      requires from <= |s|
      ensures from <= end <= |s|
      ensures IdEntry(hw, s[from..]) == if id.Some? then Some((id.value, s[end..])) else None
      ensures missing <==> MissingDevice(hw, s[from..])
      ensures id.Some? ==> from < end
    {
      var ok, key;
      ok, key, end := ReadId(s, from);
      if !ok { return None, from, false; }
      missing := At(s, end) == '=' && key !in hw;
      assert Head(s[end..]) == At(s, end);
      id, end := ReadName(s, end, key);
    }

    /** id_parse. */
    method ReadId(s: string, from: nat) returns (ok: bool, key: (DevType, nat), end: nat)
      requires from <= |s|
      ensures from <= end <= |s| && (ok ==> from < end)
      ensures IdParse(s[from..]) == if ok then Some((key, s[end..])) else None
    {
      ghost var t := s[from..];
      var kind := Nand;
      end := from;
      if StartsWith(s[from..], "nand") {
        end := from + 4;
      } else if StartsWith(s[from..], "nor") {
        kind, end := Nor, from + 3;
      } else if StartsWith(s[from..], "onenand") {
        kind, end := OneNand, from + 7;
      } else {
        return false, (kind, 0), end;
      }
      assert t[end - from..] == s[end..];
      assert IdParse(t) == IdNumber(kind, s[end..]);
      if !IsDigit(At(s, end)) { return false, (kind, 0), end; }
      var num;
      num, end := SimpleStrtoul(s, end);
      return true, (kind, num % 256), end;
    }

    /** The mtd-id, up to a comma or the end. */
    method ReadName(s: string, from: nat, key: (DevType, nat)) returns (id: Option<MtdId>, end: nat)
      requires from <= |s|
      ensures from <= end <= |s|
      ensures IdName(hw, key, s[from..]) == if id.Some? then Some((id.value, s[end..])) else None
    {
      if At(s, from) != '=' || key !in hw { return None, from; }
      ghost var t := s[from..];
      assert t[1..] == s[from + 1..];
      var comma := MtdRun.IndexOf(s, from + 1, ',');
      var name := s[from + 1..comma];
      assert t[1..][..comma - from - 1] == name;
      end := if comma == |s| then comma else comma + 1;
      assert Head(t) == '=' && Find(t[1..], ',') == comma - from - 1;
      if comma < |s| {
        assert t[comma - from + 1..] == s[end..];
      } else {
        assert s[end..] == [];
      }
      id := Some(MtdId(key.0, key.1, hw[key].0, name, hw[key].1));
    }

    /** Copies the string at `p`. */
    method ReadAt(p: nat) returns (s: string)
      requires p < store.data.Length
      ensures s == CString(store.data[..], p)
    {
      s := "";
      var i := p;
      ghost var d := store.data[..];
      while i < store.data.Length && store.data[i] != NUL
        invariant p <= i <= store.data.Length && CString(d, p) == s + CString(d, i)
      {
        assert d[i] == store.data[i];
        s := s + [store.data[i]];
        i := i + 1;
      }
      assert i < |d| ==> d[i] == store.data[i];
    }

    /** getenv, and the text it points at. */
    method Get(name: string) returns (p: Option<nat>, text: Option<string>)
      requires Valid() && NUL !in name && '=' !in name
      ensures text == Lookup(store.bindings, name) && (p.None? <==> text.None?)
      ensures p.Some? ==> p.value == ValueAt(store.bindings, name) < store.data.Length
    {
      KeyIsWhole(name);
      p := store.GetEnv(name);
      text := None;
      if p.Some? {
        ReadsValue(Here(), name, 0);
        var s := ReadAt(p.value);
        text := Some(s);
      }
    }

    /** setenv without a value. */
    method Remove(name: string)
      requires Valid() && Unguarded(name)
      modifies store`bindings, store.data
      ensures Valid() && Here() == Removed(old(Here()), name)
    {
      SetEnvIs(cfg, Here(), name, []);
      var _ := store.SetEnv(cfg, Request(name, [], true));
    }

    /** setenv with a value. */
    method Set(name: string, value: string)
      requires Valid() && Unguarded(name) && NUL !in value
      modifies store`bindings, store.data
      ensures Valid() && Here() == Added(old(Here()), name, value)
    {
      SetEnvIs(cfg, Here(), name, [value]);
      var _ := store.SetEnv(cfg, Request(name, [value], true));
    }

    /** jffs2_devices_init: no devices, and the three variables deleted. */
    method DevicesInit()
      requires Valid()
      modifies this`lastParts, this`devices, store`bindings, store.data
      ensures Valid() && lastParts == "" && devices == [] && Here() == Cleared(old(Here()))
    {
      lastParts := "";
      SavedNames();
      ghost var e := Here();
      Remove(SAVED[0]);
      Remove(SAVED[1]);
      Remove(SAVED[2]);
      devices := [];
      ThreeRemoved(e);
    }

    /** current_save for the first partition of the first device. */
    method SaveFirst(d: Device)
      requires Valid() && d.parts != []
      modifies store`bindings, store.data
      ensures Valid() && Here() == SavedFirst(old(Here()), d)
    {
      SavedNames();
      FirstLegal(d);
      Set(SAVED[0], FirstOf(d));
      Set(SAVED[1], "0");
      Set(SAVED[2], CString(d.parts[0].name, 0));
    }

    /** Parse mtdparts again, whose value was at `parts` when the call began, and remember the text. */
    method Reparse(parts: nat, ghost e: Env) returns (rc: int)
      requires Valid() && ValidEnv(e) && PartsVar(e).Some? && |PartsVar(e).value| < MTDPARTS_MAXLEN
      requires Here() == Settled(default, e) && parts == ValueAt(e.bindings, PARTS) < store.data.Length
      modifies this`lastParts, this`devices, store`bindings, store.data
      ensures Valid()
      ensures (State(), rc) == CoreParts(old(State()), true, PartsVar(e), Copied(default, e))
      ensures Here() == AfterParse(Cleared(Settled(default, e)), ids, PartsVar(e).value)
    {
      var ds := ParseParts(e);
      if ds == None { return 1; }
      FirstHasParts(ids, PartsVar(e).value);
      Keep(parts, ds.value);
      return 0;
    }

    /** Keep the devices and the text that is now at `parts`, and make the first partition current. */
    method Keep(parts: nat, ds: seq<Device>)
      requires Valid() && ds != [] && ds[0].parts != [] && parts < store.data.Length
      modifies this`lastParts, this`devices, store`bindings, store.data
      ensures Valid() && devices == ds && lastParts == Filled(CString(old(Here()).data, parts))
      ensures Here() == SavedFirst(old(Here()), ds[0])
    {
      var copy := ReadAt(parts);
      lastParts := Filled(copy);
      devices := ds;
      SaveFirst(ds[0]);
    }

    /** parse_mtdparts: drop the devices, fetch the variable again and read it. */
    method ParseParts(ghost e: Env) returns (ds: Option<seq<Device>>)
      requires Valid() && ValidEnv(e) && PartsVar(e).Some? && Here() == Settled(default, e)
      modifies this`lastParts, this`devices, store`bindings, store.data
      ensures Valid() && lastParts == "" && devices == [] && Here() == Cleared(Settled(default, e))
      ensures ds == ParseMtdparts(ids, PartsVar(e).value)
    {
      DevicesInit();
      ClearedKeeps(default, e);
      var _, text := Get(PARTS);
      ds := MtdRun.ParseTable(ids, text.value);
    }

    /** Parse mtdids again if it has changed. */
    method UpdateIds(text: string, ghost st: Cache) returns (rc: int, changed: bool)
      requires Valid() && State() == st
      modifies this`ids, this`lastIds
      ensures Valid() && (rc == 0 || rc == 1) && changed == IdsChanged(st, text)
      ensures rc == 0 <==> FreshIds(hw, st, text).Some?
      ensures State() == if rc == 0 then FreshIds(hw, st, text).value
                         else st.(ids := LeftIds(hw, [], text), lastIds := "")
    {
      if lastIds != "" && lastIds == text { return 0, false; }
      LeftIdsValid(hw, [], text);
      rc := ParseIds(text);
      if rc == 0 { lastIds := text; }
      return rc, true;
    }

    /** mtdparts is gone: drop the table it gave. */
    method WithoutParts()
      requires Valid()
      modifies this`lastParts, this`devices, store`bindings, store.data
      ensures Valid() && (old(lastParts) == "" ==> State() == old(State()) && Here() == old(Here()))
      ensures old(lastParts) != "" ==>
                State() == old(State()).(devices := [], lastParts := "") && Here() == Cleared(old(Here()))
    {
      if lastParts != "" { DevicesInit(); }
    }

    /** Parse mtdparts again if it or the ids have changed. */
    method UpdateParts(changed: bool, parts: Option<nat>, text: Option<string>, ghost e: Env) returns (rc: int)
      requires Valid() && ValidEnv(e) && Here() == Settled(default, e)
      requires PartsVar(e) == text && (text.Some? ==> |text.value| < MTDPARTS_MAXLEN)
      requires (parts.Some? <==> text.Some?)
      requires parts.Some? ==> parts.value == ValueAt(e.bindings, PARTS) < store.data.Length
      modifies this`lastParts, this`devices, store`bindings, store.data
      ensures Valid()
      ensures (State(), rc) == CoreParts(old(State()), changed, text, CopiedOrNone(default, e))
      ensures Here() == PartsEnv(old(State()), changed, text, old(Here()))
    {
      if parts == None {
        WithoutParts();
        return 0;
      }
      if lastParts == "" || lastParts != text.value || changed {
        rc := Reparse(parts.value, e);
        return;
      }
      return 0;
    }

    /** What is left to do once the two variables are read: `parts` is where mtdparts was. */
    method Update(idsText: string, parts: Option<nat>, partsText: Option<string>, ghost st: Cache, ghost e: Env)
      returns (rc: int)
      requires Valid() && State() == st && ValidEnv(e) && Here() == Settled(default, e)
      requires PartsVar(e) == partsText && !TooLong(idsText, partsText)
      requires (parts.Some? <==> partsText.Some?)
      requires parts.Some? ==> parts.value == ValueAt(e.bindings, PARTS) < store.data.Length
      modifies this, store`bindings, store.data
      ensures Valid() && (State(), rc) == Core(hw, st, idsText, partsText, CopiedOrNone(default, e))
      ensures Here() == CoreEnv(hw, st, idsText, partsText, old(Here()))
    {
      var changed;
      rc, changed := UpdateIds(idsText, st);
      if rc != 0 {
        DevicesInit();
        return 1;
      }
      rc := UpdateParts(changed, parts, partsText, e);
    }

    /** mtdparts_init. */
    method MtdpartsInit() returns (rc: int)
      requires Valid()
      modifies this, store`bindings, store.data
      ensures Valid() && (State(), rc) == Init(hw, default, old(State()), old(Here()))
      ensures Here() == InitEnv(hw, default, old(State()), old(Here()))
    {
      SavedNames();
      var idsAt, idsText := Get(IDS);
      var parts, partsText := Get(PARTS);
      if idsText.None? {
        if default.None? { return 1; }
        idsText := default;
        Set(IDS, default.value);
      }
      if TooLong(idsText.value, partsText) { return 1; }
      rc := Update(idsText.value, parts, partsText, State(), old(Here()));
    }
  }
}
