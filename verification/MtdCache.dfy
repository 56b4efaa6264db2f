/** mtdparts_init: "mtdids" and "mtdparts" are parsed again only when they changed. */
module MtdCache {
  import opened Machine
  import opened MtdParts
  import opened MtdIds
  import opened EnvImage
  import opened EnvStore
  import opened EnvPointer
  import MtdRoundTrip

  // ------------------------------------------------------- the environment

  /** What jffs2_devices_init deletes, in this order. */
  const SAVED: seq<string> := ["partition", "mtddevnum", "mtddevname"]

  const IDS: string := "mtdids"
  const PARTS: string := "mtdparts"

  predicate ValidDefault(default: Option<string>) { default.Some? ==> NUL !in default.value }

  function PartsVar(e: Env): Option<string> { Lookup(e.bindings, PARTS) }

  /** The value of mtdids that a call uses: the variable, or else the built-in default. */
  function IdsVar(default: Option<string>, e: Env): Option<string> {
    if Lookup(e.bindings, IDS).Some? then Lookup(e.bindings, IDS) else default
  }

  /** The default is also stored in the variable. */
  ghost function Settled(default: Option<string>, e: Env): (e': Env)
    requires ValidEnv(e) && ValidDefault(default)
    ensures ValidEnv(e')
  {
    if Lookup(e.bindings, IDS) == None && default.Some? then Added(e, IDS, default.value) else e
  }

  ghost function Cleared(e: Env): (e': Env)
    requires ValidEnv(e)
    ensures ValidEnv(e')
  {
    RemovedAll(e, SAVED)
  }

  /** What is copied into last_parts: the text that the pointer to mtdparts, taken at the
      beginning, shows after the deletions. A text that fills the buffer equals no value. */
  ghost function Copied(default: Option<string>, e: Env): string
    requires ValidEnv(e) && ValidDefault(default) && PartsVar(e).Some?
  {
    Filled(CString(Cleared(Settled(default, e)).data, ValueAt(e.bindings, PARTS)))
  }

  function Filled(s: string): string { if |s| <= MTDPARTS_MAXLEN then s else s[..MTDPARTS_MAXLEN] }

  /** How far the deletions move mtdparts. */
  ghost function Moved(e: Env): nat { Shift(e.bindings, SAVED, PARTS) }

  lemma SavedNames()
    ensures Distinct(SAVED) && PARTS !in SAVED && IDS !in SAVED && IDS != PARTS
    ensures forall i | 0 <= i < |SAVED| :: Unguarded(SAVED[i])
    ensures Unguarded(IDS)
  {
    assert |SAVED[0]| == |SAVED[1]| == 9 && |SAVED[2]| == 10 && |PARTS| == 8 && |IDS| == 6;
    assert SAVED[0][0] == 'p' && SAVED[1][0] == SAVED[2][0] == 'm';
  }

  /** Storing the default moves nothing. */
  lemma SettledKeeps(default: Option<string>, e: Env)
    requires ValidEnv(e) && ValidDefault(default) && PartsVar(e).Some?
    ensures var bs := Settled(default, e).bindings;
            && Lookup(bs, PARTS) == PartsVar(e) && ValueAt(bs, PARTS) == ValueAt(e.bindings, PARTS)
            && Shift(bs, SAVED, PARTS) == Moved(e)
  {
    var bs, bs' := e.bindings, Settled(default, e).bindings;
    SavedNames();
    OthersSplices(bs, IDS);
    if bs' != bs {
      AppendKeeps(bs, bs'[|bs|], SAVED, PARTS);
    }
  }

  lemma {:induction false} IndexAppend(bs: seq<Binding>, b: Binding, name: string)
    ensures IndexOf(bs, name) < |bs| ==> IndexOf(bs + [b], name) == IndexOf(bs, name)
    ensures IndexOf(bs, name) == |bs| ==> IndexOf(bs + [b], name) >= |bs|
  {
    if bs != [] {
      assert (bs + [b])[1..] == bs[1..] + [b];
      IndexAppend(bs[1..], b, name);
    }
  }

  lemma {:induction false} AppendKeeps(bs: seq<Binding>, b: Binding, names: seq<string>, name: string)
    requires Lookup(bs, name).Some?
    ensures Lookup(bs + [b], name) == Lookup(bs, name) && ValueAt(bs + [b], name) == ValueAt(bs, name)
    ensures Shift(bs + [b], names, name) == Shift(bs, names, name)
    decreases |names|
  {
    IndexAppend(bs, b, name);
    StartInPrefix(bs, bs + [b], IndexOf(bs, name));
    if names != [] {
      IndexAppend(bs, b, names[0]);
      AppendKeeps(bs, b, names[1..], name);
    }
  }

  /** Nor do the deletions change mtdparts. */
  lemma ClearedKeeps(default: Option<string>, e: Env)
    requires ValidEnv(e) && ValidDefault(default) && PartsVar(e).Some?
    ensures Lookup(Cleared(Settled(default, e)).bindings, PARTS) == PartsVar(e)
    ensures NUL !in PARTS && '=' !in PARTS
  {
    SavedNames();
    SettledKeeps(default, e);
    AllMove(Settled(default, e), SAVED, PARTS);
  }

  /** The copy of a value that fits: without as many characters as it was moved by. */
  lemma CopyIsSuffix(default: Option<string>, e: Env)
    requires ValidEnv(e) && ValidDefault(default) && PartsVar(e).Some?
    requires Moved(e) <= |PartsVar(e).value| < MTDPARTS_MAXLEN
    ensures Copied(default, e) == PartsVar(e).value[Moved(e)..]
  {
    SavedNames();
    SettledKeeps(default, e);
    StaleIsSuffix(Settled(default, e), SAVED, PARTS);
  }

  // ------------------------------------------------------------- the cache

  datatype Cache = Cache(ids: seq<MtdId>, devices: seq<Device>, lastIds: string, lastParts: string)

  const EMPTY: Cache := Cache([], [], "", "")

  const MTDIDS_MAXLEN: nat := 128
  const MTDPARTS_MAXLEN: nat := 512

  predicate TooLong(ids: string, parts: Option<string>) {
    |ids| > MTDIDS_MAXLEN - 1 || (parts.Some? && |parts.value| > MTDPARTS_MAXLEN - 1)
  }

  /** Bring the ids up to date; None if they do not parse. */
  function FreshIds(hw: Hardware, st: Cache, ids: string): Option<Cache> {
    if !IdsChanged(st, ids) then Some(st)
    else
      match ParseMtdids(hw, ids)
      case None => None
      case Some(v) => Some(st.(ids := v, lastIds := ids))
  }

  predicate IdsChanged(st: Cache, ids: string) { !(st.lastIds != "" && st.lastIds == ids) }

  /** Does the device list have to be parsed? */
  predicate Stale(st: Cache, ids: string, parts: string) {
    st.lastParts == "" || st.lastParts != parts || IdsChanged(st, ids)
  }

  ghost predicate Context(hw: Hardware, default: Option<string>, st: Cache, e: Env) {
    ValidHardware(hw) && ValidDefault(default) && ValidIds(st.ids) && ValidEnv(e)
  }

  /** mtdparts_init on the two texts; `copied` is what it remembers of mtdparts if that parses. */
  ghost function Core(hw: Hardware, st: Cache, ids: string, parts: Option<string>, copied: string): (Cache, int)
    requires ValidHardware(hw) && ValidIds(st.ids)
  {
    if TooLong(ids, parts) then (st, 1)
    else
      match FreshIds(hw, st, ids)
      case None => (Cache(LeftIds(hw, [], ids), [], "", ""), 1)
      case Some(st1) =>
        FreshIdsValid(hw, st, ids);
        CoreParts(st1, IdsChanged(st, ids), parts, copied)
  }

  /** ... once the ids are up to date; `changed` says that they were parsed. */
  ghost function CoreParts(st: Cache, changed: bool, parts: Option<string>, copied: string): (Cache, int)
    requires ValidIds(st.ids)
  {
    if parts.None? then (if st.lastParts != "" then st.(devices := [], lastParts := "") else st, 0)
    else if st.lastParts != "" && st.lastParts == parts.value && !changed then (st, 0)
    else
      match ParseMtdparts(st.ids, parts.value)
      case None => (st.(devices := [], lastParts := ""), 1)
      case Some(ds) => (st.(devices := ds, lastParts := copied), 0)
  }

  ghost function CopiedOrNone(default: Option<string>, e: Env): string
    requires ValidEnv(e) && ValidDefault(default)
  {
    if PartsVar(e).Some? then Copied(default, e) else ""
  }

  /** mtdparts_init as a function of the cache and the environment: the new cache and the return code. */
  ghost function Init(hw: Hardware, default: Option<string>, st: Cache, e: Env): (Cache, int)
    requires Context(hw, default, st, e)
  {
    if IdsVar(default, e) == None then (st, 1)
    else Core(hw, st, IdsVar(default, e).value, PartsVar(e), CopiedOrNone(default, e))
  }

  lemma FreshIdsValid(hw: Hardware, st: Cache, ids: string)
    requires ValidHardware(hw) && ValidIds(st.ids) && FreshIds(hw, st, ids).Some?
    ensures ValidIds(FreshIds(hw, st, ids).value.ids)
  {
    if IdsChanged(st, ids) { IdEntriesValid(hw, [], ids); }
  }

  /** What a call should leave behind: the table that its two strings describe. */
  ghost function Fresh(hw: Hardware, ids: string, parts: string): Option<seq<Device>>
    requires ValidHardware(hw)
  {
    match ParseMtdids(hw, ids)
    case None => None
    case Some(v) => IdEntriesValid(hw, [], ids); ParseMtdparts(v, parts)
  }

  /** A call that succeeds with mtdparts set leaves the table that a parse from scratch gives. */
  ghost predicate Transparent(hw: Hardware, default: Option<string>, st: Cache, e: Env)
    requires Context(hw, default, st, e)
  {
    Init(hw, default, st, e).1 == 0 && PartsVar(e).Some? ==>
      IdsVar(default, e).Some?
      && Fresh(hw, IdsVar(default, e).value, PartsVar(e).value) == Some(Init(hw, default, st, e).0.devices)
  }

  /** A remembered text that does no harm: none, one that no variable of legal length can have, or one that
      describes the table it is remembered for. */
  ghost predicate Innocent(hw: Hardware, ids: string, copied: string, ds: seq<Device>)
    requires ValidHardware(hw)
  {
    copied == "" || |copied| >= MTDPARTS_MAXLEN || Fresh(hw, ids, copied) == Some(ds)
  }

  /** The cached lists are what the cached strings describe, as far as these can be met again. */
  ghost predicate Coherent(hw: Hardware, st: Cache)
    requires ValidHardware(hw)
  {
    && ValidIds(st.ids)
    && (st.lastIds != "" ==> ParseMtdids(hw, st.lastIds) == Some(st.ids))
    && (st.lastParts != "" ==> st.lastIds != "" && Innocent(hw, st.lastIds, st.lastParts, st.devices))
  }

  /** A parsed string is not empty. */
  lemma ParsedNotEmpty(hw: Hardware, ids: seq<MtdId>, s: string)
    ensures ValidIds(ids) && ParseMtdparts(ids, s).Some? ==> s != ""
    ensures ParseMtdids(hw, s).Some? ==> s != ""
  {
  }

  /** A call that has to parse in environment `e`, and succeeds. */
  ghost predicate Parses(hw: Hardware, default: Option<string>, st: Cache, e: Env)
    requires Context(hw, default, st, e)
  {
    && IdsVar(default, e).Some? && PartsVar(e).Some? && Init(hw, default, st, e).1 == 0
    && Stale(st, IdsVar(default, e).value, PartsVar(e).value)
  }

  /** If it parses, it copies an innocent text. */
  ghost predicate SafeCall(hw: Hardware, default: Option<string>, st: Cache, e: Env)
    requires Context(hw, default, st, e)
  {
    Parses(hw, default, st, e) ==>
      Innocent(hw, IdsVar(default, e).value, Copied(default, e), Init(hw, default, st, e).0.devices)
  }

  /** One call from a coherent cache is transparent, and leaves a coherent cache if it was safe. */
  lemma InitIsFresh(hw: Hardware, default: Option<string>, st: Cache, e: Env)
    requires Context(hw, default, st, e) && Coherent(hw, st)
    ensures Transparent(hw, default, st, e) && ValidIds(Init(hw, default, st, e).0.ids)
    ensures SafeCall(hw, default, st, e) ==> Coherent(hw, Init(hw, default, st, e).0)
  {
    if IdsVar(default, e).Some? {
      CoreIsFresh(hw, st, IdsVar(default, e).value, PartsVar(e), CopiedOrNone(default, e));
    }
  }

  lemma CoreIsFresh(hw: Hardware, st: Cache, ids: string, parts: Option<string>, copied: string)
    requires ValidHardware(hw) && Coherent(hw, st)
    ensures var (st', rc) := Core(hw, st, ids, parts, copied);
            && ValidIds(st'.ids)
            && (rc == 0 && parts.Some? ==> Fresh(hw, ids, parts.value) == Some(st'.devices))
            && ((rc == 0 && parts.Some? && Stale(st, ids, parts.value) ==> Innocent(hw, ids, copied, st'.devices))
                ==> Coherent(hw, st'))
  {
    ParsedNotEmpty(hw, st.ids, ids);
    LeftIdsValid(hw, [], ids);
    if FreshIds(hw, st, ids).Some? && !TooLong(ids, parts) {
      FreshIdsValid(hw, st, ids);
      CorePartsFresh(hw, FreshIds(hw, st, ids).value, IdsChanged(st, ids), ids, parts, copied);
    }
  }

  lemma CorePartsFresh(hw: Hardware, st: Cache, changed: bool, ids: string,
                                          parts: Option<string>, copied: string)
    requires ValidHardware(hw) && ValidIds(st.ids) && st.lastIds == ids != "" && ParseMtdids(hw, ids) == Some(st.ids)
    requires (!changed ==> Coherent(hw, st)) && (parts.Some? ==> |parts.value| < MTDPARTS_MAXLEN)
    ensures var (st', rc) := CoreParts(st, changed, parts, copied);
            && ValidIds(st'.ids)
            && (rc == 0 && parts.Some? ==> Fresh(hw, ids, parts.value) == Some(st'.devices))
            && ((rc == 0 && parts.Some? && (st.lastParts == "" || st.lastParts != parts.value || changed) ==>
                   Innocent(hw, ids, copied, st'.devices))
                ==> Coherent(hw, st'))
  {
  }

  /** From a coherent cache, as after a restart, a call rebuilds a printed table exactly when it is legible and its
      text is not longer than mtdparts may be. generate_mtdparts does not see to the latter: it does not count the
      prefix. */
  lemma PrintedIsRebuilt(hw: Hardware, st: Cache, ids: string, ds: seq<Device>, copied: string)
    requires ValidHardware(hw) && Coherent(hw, st) && |ids| < MTDIDS_MAXLEN && ParseMtdids(hw, ids).Some? && ds != []
    requires MtdRoundTrip.PlainTable(ParseMtdids(hw, ids).value, ds)
    ensures var (st', rc) := Core(hw, st, ids, Some(Generate(ds)), copied);
            rc == 0 && MtdRoundTrip.SameDevices(ds, st'.devices) <==> CanReturn(ds)
  {
    CoreIsFresh(hw, st, ids, Some(Generate(ds)), copied);
    CoreSucceeds(hw, st, ids, Generate(ds), copied);
    MtdRoundTrip.RoundTripExactly(ParseMtdids(hw, ids).value, ds);
  }

  ghost predicate CanReturn(ds: seq<Device>) {
    && |PREFIX| + |DevicesText(ds)| < MTDPARTS_MAXLEN
    && forall i | 0 <= i < |ds| :: MtdRoundTrip.Legible(ds[i].parts)
  }

  /** generate_mtdparts_save: the new value of mtdparts, if the text fits as generate_mtdparts counts. */
  function SavedText(ds: seq<Device>): Option<string> {
    if |DevicesText(ds)| < MTDPARTS_MAXLEN then Some(Generate(ds)) else None
  }

  /** The text is written into last_parts, as if it had been parsed. */
  function Saved(st: Cache): Cache {
    st.(lastParts := if SavedText(st.devices).Some? then Generate(st.devices) else "")
  }

  /** After a save the next call keeps the table, legible or not; it refuses a text that is longer than mtdparts may be,
      and keeps the table then as well. After a restart the table comes back exactly when it can. */
  lemma SavedThenRestarted(hw: Hardware, st: Cache, ids: string, copied: string)
    requires ValidHardware(hw) && st.lastIds == ids && ParseMtdids(hw, ids) == Some(st.ids) && |ids| < MTDIDS_MAXLEN
    requires ValidIds(st.ids) && MtdRoundTrip.PlainTable(st.ids, st.devices) && st.devices != []
    ensures var text := SavedText(st.devices);
            Core(hw, Saved(st), ids, text, copied) == (Saved(st), if TooLong(ids, text) then 1 else 0)
    ensures var (st', rc) := Core(hw, EMPTY, ids, SavedText(st.devices), copied);
            rc == 0 && MtdRoundTrip.SameDevices(st.devices, st'.devices) <==> CanReturn(st.devices)
  {
    ParsedNotEmpty(hw, st.ids, ids);
    if SavedText(st.devices).Some? {
      KnownIsKept(hw, Saved(st), ids, copied);
      PrintedIsRebuilt(hw, EMPTY, ids, st.devices, copied);
    }
  }

  lemma KnownIsKept(hw: Hardware, st: Cache, ids: string, copied: string)
    requires ValidHardware(hw) && ValidIds(st.ids) && st.lastIds == ids != "" && |ids| < MTDIDS_MAXLEN
    requires st.lastParts != ""
    ensures Core(hw, st, ids, Some(st.lastParts), copied) == (st, if |st.lastParts| < MTDPARTS_MAXLEN then 0 else 1)
  {
  }

  /** From a coherent cache, a call succeeds exactly when the texts are not too long and parse. */
  lemma CoreSucceeds(hw: Hardware, st: Cache, ids: string, parts: string, copied: string)
    requires ValidHardware(hw) && Coherent(hw, st)
    ensures Core(hw, st, ids, Some(parts), copied).1 == 0 <==>
            !TooLong(ids, Some(parts)) && Fresh(hw, ids, parts).Some?
  {
    if FreshIds(hw, st, ids).Some? { FreshIdsValid(hw, st, ids); }
  }

  /** The deletions do not move mtdparts, or move it by its whole length. A caller sees that from the
      order and the lengths of the variables. */
  ghost predicate Harmless(e: Env) {
    PartsVar(e).Some? ==> Moved(e) == 0 || Moved(e) == |PartsVar(e).value|
  }

  lemma HarmlessIsSafe(hw: Hardware, default: Option<string>, st: Cache, e: Env)
    requires Context(hw, default, st, e) && Coherent(hw, st) && Harmless(e)
    ensures SafeCall(hw, default, st, e)
  {
    if Parses(hw, default, st, e) {
      InitIsFresh(hw, default, st, e);
      WhatIsKept(hw, default, st, e);
      CopyIsSuffix(default, e);
    }
  }

  /** In particular when none of the three variables is stored before mtdparts. */
  lemma NoneBeforeIsHarmless(e: Env)
    requires NoneBefore(e.bindings, SAVED, PARTS)
    ensures Harmless(e)
  {
    NoShift(e.bindings, SAVED, PARTS);
  }

  /** The cache after a sequence of calls, each in any environment. */
  ghost function Run(hw: Hardware, default: Option<string>, st: Cache, es: seq<Env>): (r: Cache)
    requires ValidHardware(hw) && ValidDefault(default) && ValidIds(st.ids)
    requires forall i | 0 <= i < |es| :: ValidEnv(es[i])
    ensures ValidIds(r.ids)
    decreases |es|
  {
    if es == [] then st
    else
      InitKeepsIds(hw, default, st, es[0]);
      Run(hw, default, Init(hw, default, st, es[0]).0, es[1..])
  }

  lemma InitKeepsIds(hw: Hardware, default: Option<string>, st: Cache, e: Env)
    requires Context(hw, default, st, e)
    ensures ValidIds(Init(hw, default, st, e).0.ids)
  {
    if IdsVar(default, e).Some? {
      CoreKeepsIds(hw, st, IdsVar(default, e).value, PartsVar(e), CopiedOrNone(default, e));
    }
  }

  lemma CoreKeepsIds(hw: Hardware, st: Cache, ids: string, parts: Option<string>, copied: string)
    requires ValidHardware(hw) && ValidIds(st.ids)
    ensures ValidIds(Core(hw, st, ids, parts, copied).0.ids)
  {
    LeftIdsValid(hw, [], ids);
    if FreshIds(hw, st, ids).Some? { FreshIdsValid(hw, st, ids); }
  }

  /** Every call of a run is safe. */
  ghost predicate SafeRun(hw: Hardware, default: Option<string>, st: Cache, es: seq<Env>)
    requires ValidHardware(hw) && ValidDefault(default) && ValidIds(st.ids)
    requires forall i | 0 <= i < |es| :: ValidEnv(es[i])
    decreases |es|
  {
    es == [] ||
    (&& SafeCall(hw, default, st, es[0])
     && (InitKeepsIds(hw, default, st, es[0]); SafeRun(hw, default, Init(hw, default, st, es[0]).0, es[1..])))
  }

  lemma {:induction false} RunCoherent(hw: Hardware, default: Option<string>, st: Cache, es: seq<Env>)
    requires ValidHardware(hw) && ValidDefault(default) && Coherent(hw, st)
    requires (forall i | 0 <= i < |es| :: ValidEnv(es[i])) && SafeRun(hw, default, st, es)
    ensures Coherent(hw, Run(hw, default, st, es))
    decreases |es|
  {
    if es != [] {
      InitIsFresh(hw, default, st, es[0]);
      RunCoherent(hw, default, Init(hw, default, st, es[0]).0, es[1..]);
    }
  }

  lemma {:induction false} HarmlessRunIsSafe(hw: Hardware, default: Option<string>, st: Cache, es: seq<Env>)
    requires ValidHardware(hw) && ValidDefault(default) && Coherent(hw, st)
    requires forall i | 0 <= i < |es| :: ValidEnv(es[i]) && Harmless(es[i])
    ensures SafeRun(hw, default, st, es)
    decreases |es|
  {
    if es != [] {
      HarmlessIsSafe(hw, default, st, es[0]);
      InitIsFresh(hw, default, st, es[0]);
      HarmlessRunIsSafe(hw, default, Init(hw, default, st, es[0]).0, es[1..]);
    }
  }

  /** The cache is transparent: over every sequence of calls in harmless environments, whatever was
      parsed or failed to parse before. The last environment may be any. */
  lemma {:induction false} CacheIsTransparent(hw: Hardware, default: Option<string>, es: seq<Env>, e: Env)
    requires ValidHardware(hw) && ValidDefault(default) && ValidEnv(e)
    requires forall i | 0 <= i < |es| :: ValidEnv(es[i]) && Harmless(es[i])
    ensures Transparent(hw, default, Run(hw, default, EMPTY, es), e)
  {
    HarmlessRunIsSafe(hw, default, EMPTY, es);
    RunCoherent(hw, default, EMPTY, es);
    InitIsFresh(hw, default, Run(hw, default, EMPTY, es), e);
  }

  /** The next call is transparent, whatever its environment. */
  ghost predicate TransparentNext(hw: Hardware, default: Option<string>, st: Cache)
    requires ValidHardware(hw) && ValidDefault(default) && ValidIds(st.ids)
  {
    forall f: Env | ValidEnv(f) :: Transparent(hw, default, st, f)
  }

  /** The cache is transparent at every point of a run: at each call, and after the last one. */
  ghost predicate AlwaysTransparent(hw: Hardware, default: Option<string>, st: Cache, es: seq<Env>)
    requires ValidHardware(hw) && ValidDefault(default) && ValidIds(st.ids)
    requires forall i | 0 <= i < |es| :: ValidEnv(es[i])
    decreases |es|
  {
    && TransparentNext(hw, default, st)
    && (es == [] ||
        (InitKeepsIds(hw, default, st, es[0]); AlwaysTransparent(hw, default, Init(hw, default, st, es[0]).0, es[1..])))
  }

  /** Exactly: it is if and only if every call of the run is safe. */
  lemma {:induction false} RunTransparentExactly(hw: Hardware, default: Option<string>, st: Cache, es: seq<Env>)
    requires ValidHardware(hw) && ValidDefault(default) && Coherent(hw, st)
    requires forall i | 0 <= i < |es| :: ValidEnv(es[i])
    ensures SafeRun(hw, default, st, es) <==> AlwaysTransparent(hw, default, st, es)
    decreases |es|
  {
    CoherentIsTransparent(hw, default, st);
    if es != [] {
      SafeExactly(hw, default, st, es[0]);
      if SafeCall(hw, default, st, es[0]) {
        RunTransparentExactly(hw, default, Init(hw, default, st, es[0]).0, es[1..]);
      }
    }
  }

  /** A safe call keeps the cache coherent; after any other, some environment shows a wrong table. */
  lemma SafeExactly(hw: Hardware, default: Option<string>, st: Cache, e: Env)
    requires Context(hw, default, st, e) && Coherent(hw, st)
    ensures var st1 := Init(hw, default, st, e).0;
            && ValidIds(st1.ids)
            && if SafeCall(hw, default, st, e) then Coherent(hw, st1) else !TransparentNext(hw, default, st1)
  {
    InitIsFresh(hw, default, st, e);
    if !SafeCall(hw, default, st, e) { InnocentExactly(hw, default, st, e); }
  }

  lemma CoherentIsTransparent(hw: Hardware, default: Option<string>, st: Cache)
    requires ValidHardware(hw) && ValidDefault(default) && Coherent(hw, st)
    ensures TransparentNext(hw, default, st)
  {
    forall f: Env | ValidEnv(f) ensures Transparent(hw, default, st, f) {
      InitIsFresh(hw, default, st, f);
    }
  }

  /** A variable that is set is used, whatever the default is ... */
  lemma VariableIsUsed(hw: Hardware, default: Option<string>, other: Option<string>, st: Cache, e: Env)
    requires Context(hw, default, st, e) && ValidDefault(other) && Lookup(e.bindings, "mtdids").Some?
    ensures Init(hw, default, st, e) == Init(hw, other, st, e) && Settled(default, e) == e
    ensures IdsVar(default, e) == Lookup(e.bindings, "mtdids")
  {
  }

  /** ... and otherwise the default is, and stored if it fits. Without either the call fails and changes nothing. */
  lemma DefaultIsUsed(hw: Hardware, default: Option<string>, st: Cache, e: Env)
    requires Context(hw, default, st, e) && Lookup(e.bindings, "mtdids") == None
    ensures IdsVar(default, e) == default
    ensures default == None ==> Init(hw, default, st, e) == (st, 1)
    ensures default.Some? && |Image(e.bindings + [Binding("mtdids", default.value)])| <= |e.data| ==>
              Settled(default, e).bindings == e.bindings + [Binding("mtdids", default.value)]
  {
    OthersAbsent(e.bindings, IDS);
  }

  /** A call that finds no mtdparts forgets the text and drops the table that it gave ... */
  lemma WhatIsDropped(hw: Hardware, default: Option<string>, st: Cache, e: Env)
    requires Context(hw, default, st, e) && IdsVar(default, e).Some? && PartsVar(e) == None
    ensures var (st', rc) := Init(hw, default, st, e);
            rc == 0 ==> st'.lastParts == "" && (st.lastParts != "" ==> st'.devices == [])
  {
    CoreDrops(hw, st, IdsVar(default, e).value, "");
  }

  lemma CoreDrops(hw: Hardware, st: Cache, ids: string, copied: string)
    requires ValidHardware(hw) && ValidIds(st.ids)
    ensures var (st', rc) := Core(hw, st, ids, None, copied);
            && (rc == 0 <==> !TooLong(ids, None) && FreshIds(hw, st, ids).Some?)
            && (rc == 0 ==> st'.lastParts == "" && (st.lastParts != "" ==> st'.devices == []))
  {
    if FreshIds(hw, st, ids).Some? { FreshIdsValid(hw, st, ids); }
  }

  /** ... and one that finds ids or a table it cannot parse leaves no devices. */
  lemma FailureEmpties(hw: Hardware, st: Cache, ids: string, parts: Option<string>, copied: string)
    requires ValidHardware(hw) && ValidIds(st.ids) && !TooLong(ids, parts)
    ensures var (st', rc) := Core(hw, st, ids, parts, copied);
            rc != 0 ==> rc == 1 && st'.devices == [] && st'.lastParts == ""
  {
    if FreshIds(hw, st, ids).Some? { FreshIdsValid(hw, st, ids); }
  }

  /** The deletions of jffs2_devices_init: the three variables are gone and no others. */
  lemma ClearedDrops(e: Env, name: string)
    requires ValidEnv(e)
    ensures Lookup(Cleared(e).bindings, name) ==
            if name in ["partition", "mtddevnum", "mtddevname"] then None else Lookup(e.bindings, name)
  {
    AllRemoved(e, SAVED, name);
  }

  lemma {:induction false} AllRemoved(e: Env, names: seq<string>, name: string)
    requires ValidEnv(e)
    ensures Lookup(RemovedAll(e, names).bindings, name) == if name in names then None else Lookup(e.bindings, name)
    decreases |names|
  {
    if names != [] {
      LookupOthers(e.bindings, names[0], name);
      AllRemoved(Removed(e, names[0]), names[1..], name);
      assert names == [names[0]] + names[1..];
    }
  }

  // ------------------------------------------------------------- wrong calls

  /** What holds of the cache after every run, safe or not. */
  ghost predicate Grounded(hw: Hardware, st: Cache) {
    && ValidIds(st.ids) && |st.lastIds| < MTDIDS_MAXLEN
    && (st.lastIds != "" ==> ParseMtdids(hw, st.lastIds) == Some(st.ids))
    && (st.lastParts != "" ==> st.lastIds != "")
  }

  /** The two variables are the remembered texts, and the table that is kept is not what they describe. */
  ghost predicate Mistaken(hw: Hardware, default: Option<string>, st: Cache, e: Env)
    requires ValidHardware(hw)
  {
    && st.lastParts != "" && PartsVar(e) == Some(st.lastParts) && IdsVar(default, e) == Some(st.lastIds)
    && !Innocent(hw, st.lastIds, st.lastParts, st.devices)
  }

  /** A call is wrong exactly then. */
  lemma WrongExactly(hw: Hardware, default: Option<string>, st: Cache, e: Env)
    requires Context(hw, default, st, e) && Grounded(hw, st)
    ensures !Transparent(hw, default, st, e) <==> Mistaken(hw, default, st, e)
  {
    if IdsVar(default, e).Some? && PartsVar(e).Some? {
      CoreWrongExactly(hw, st, IdsVar(default, e).value, PartsVar(e).value, CopiedOrNone(default, e));
    }
  }

  lemma CoreWrongExactly(hw: Hardware, st: Cache, ids: string, parts: string, copied: string)
    requires ValidHardware(hw) && Grounded(hw, st)
    ensures var (st', rc) := Core(hw, st, ids, Some(parts), copied);
            rc == 0 && Fresh(hw, ids, parts) != Some(st'.devices) <==>
            st.lastParts != "" && parts == st.lastParts && ids == st.lastIds && !Innocent(hw, ids, parts, st.devices)
  {
    if FreshIds(hw, st, ids).Some? { FreshIdsValid(hw, st, ids); }
  }

  /** The cache holds what a call in environment `e` has parsed and copied. */
  ghost predicate KeptFrom(hw: Hardware, default: Option<string>, st: Cache, e: Env)
    requires ValidHardware(hw) && ValidDefault(default)
  {
    && ValidEnv(e) && PartsVar(e).Some? && st.lastParts == Copied(default, e) && IdsVar(default, e) == Some(st.lastIds)
    && Fresh(hw, st.lastIds, PartsVar(e).value) == Some(st.devices)
  }

  lemma GroundedStep(hw: Hardware, default: Option<string>, st: Cache, e: Env)
    requires Context(hw, default, st, e) && Grounded(hw, st)
    ensures var st1 := Init(hw, default, st, e).0;
            && Grounded(hw, st1)
            && (st1.lastParts == "" || KeptFrom(hw, default, st1, e)
                || SameText(st1, st))
  {
    if IdsVar(default, e).Some? {
      CoreGrounded(hw, st, IdsVar(default, e).value, PartsVar(e), CopiedOrNone(default, e));
    }
  }

  lemma CoreGrounded(hw: Hardware, st: Cache, ids: string, parts: Option<string>, copied: string)
    requires ValidHardware(hw) && Grounded(hw, st)
    ensures var st1 := Core(hw, st, ids, parts, copied).0;
            && Grounded(hw, st1)
            && (|| st1.lastParts == ""
                || (parts.Some? && st1.lastParts == copied && st1.lastIds == ids
                    && Fresh(hw, ids, parts.value) == Some(st1.devices))
                || SameText(st1, st))
  {
    ParsedNotEmpty(hw, st.ids, ids);
    LeftIdsValid(hw, [], ids);
    if FreshIds(hw, st, ids).Some? && !TooLong(ids, parts) {
      FreshIdsValid(hw, st, ids);
      CorePartsGrounded(hw, FreshIds(hw, st, ids).value, IdsChanged(st, ids), ids, parts, copied);
    }
  }

  lemma CorePartsGrounded(hw: Hardware, st: Cache, changed: bool, ids: string,
                                             parts: Option<string>, copied: string)
    requires ValidHardware(hw) && Grounded(hw, st) && st.lastIds == ids != ""
    ensures var st1 := CoreParts(st, changed, parts, copied).0;
            && Grounded(hw, st1)
            && (|| st1.lastParts == ""
                || (parts.Some? && st1.lastParts == copied && st1.lastIds == ids
                    && Fresh(hw, ids, parts.value) == Some(st1.devices))
                || (!changed && st1 == st))
  {
  }

  /** The same text, ids and table are remembered. */
  predicate SameText(a: Cache, b: Cache) { a.lastParts == b.lastParts && a.lastIds == b.lastIds && a.devices == b.devices }

  /** After any run, the remembered text is that of the last call that parsed, call `i`, or still that of `st`. */
  lemma {:induction false} RunGrounded(hw: Hardware, default: Option<string>, st: Cache, es: seq<Env>, st': Cache)
    returns (i: int)
    requires ValidHardware(hw) && ValidDefault(default) && Grounded(hw, st)
    requires (forall j | 0 <= j < |es| :: ValidEnv(es[j])) && st' == Run(hw, default, st, es)
    ensures Grounded(hw, st') && -1 <= i < |es|
    ensures st'.lastParts == "" || if i == -1 then SameText(st', st) else KeptFrom(hw, default, st', es[i])
    decreases |es|
  {
    if es == [] { return -1; }
    var e, rest := es[0], es[1..];
    var st1 := FirstOfRun(hw, default, st, es);
    var k := RunGrounded(hw, default, st1, rest, st');
    if k >= 0 {
      var f := rest[k];
      assert es[k + 1] == f;
      return k + 1;
    }
    if st'.lastParts == "" || SameText(st1, st) { return -1; }
    KeptSame(hw, default, st1, st', e);
    return 0;
  }

  lemma FirstOfRun(hw: Hardware, default: Option<string>, st: Cache, es: seq<Env>) returns (st1: Cache)
    requires ValidHardware(hw) && ValidDefault(default) && Grounded(hw, st)
    requires (forall j | 0 <= j < |es| :: ValidEnv(es[j])) && es != []
    ensures Grounded(hw, st1) && Run(hw, default, st, es) == Run(hw, default, st1, es[1..])
    ensures st1.lastParts == "" || KeptFrom(hw, default, st1, es[0]) || SameText(st1, st)
  {
    st1 := Init(hw, default, st, es[0]).0;
    GroundedStep(hw, default, st, es[0]);
  }

  lemma KeptSame(hw: Hardware, default: Option<string>, st: Cache, st': Cache, e: Env)
    requires ValidHardware(hw) && ValidDefault(default) && SameText(st', st) && KeptFrom(hw, default, st, e)
    ensures KeptFrom(hw, default, st', e)
  {
  }

  /** The last call of a run, in environment `e`, is wrong exactly when it finds the ids of call `i` and the text that
      this call, the last one that parsed, has copied, and that text is not innocent. It then keeps the table of call `i`. */
  lemma CallIsWrongExactly(hw: Hardware, default: Option<string>, es: seq<Env>, e: Env) returns (i: int)
    requires ValidHardware(hw) && ValidDefault(default) && ValidEnv(e) && forall j | 0 <= j < |es| :: ValidEnv(es[j])
    ensures var st := Run(hw, default, EMPTY, es);
            && (!Transparent(hw, default, st, e) <==> Mistaken(hw, default, st, e))
            && (st.lastParts != "" ==> 0 <= i < |es| && KeptFrom(hw, default, st, es[i]))
  {
    i := RunGrounded(hw, default, EMPTY, es, Run(hw, default, EMPTY, es));
    WrongExactly(hw, default, Run(hw, default, EMPTY, es), e);
  }

  // ------------------------------------------------------------ the failure

  /** "mtdparts=" occurs in the text only at its beginning. */
  ghost predicate OnePrefix(v: string) { forall i | 0 < i <= |v| :: !(PREFIX <= v[i..]) }

  /** A part of the value was copied: if mtdparts then becomes that part, the next call succeeds and
      keeps the old table, though the text describes no table at all. */
  lemma FalseCopyIsBelieved(hw: Hardware, default: Option<string>, st: Cache, e: Env, f: Env)
    requires Context(hw, default, st, e) && Coherent(hw, st) && Parses(hw, default, st, e) && ValidEnv(f)
    requires 0 < Moved(e) < |PartsVar(e).value| && OnePrefix(PartsVar(e).value)
    requires IdsVar(default, f) == IdsVar(default, e) && PartsVar(f) == Some(PartsVar(e).value[Moved(e)..])
    ensures var st1 := Init(hw, default, st, e).0;
            && ValidIds(st1.ids) && Init(hw, default, st1, f) == (st1, 0)
            && Fresh(hw, IdsVar(default, f).value, PartsVar(f).value) == None
            && !Transparent(hw, default, st1, f)
  {
    var ids, v := IdsVar(default, e).value, PartsVar(e).value;
    InitIsFresh(hw, default, st, e);
    CopyIsSuffix(default, e);
    WhatIsKept(hw, default, st, e);
    KnownTextIsKept(hw, default, Init(hw, default, st, e).0, f);
    NoPrefixNoTable(hw, ids, v[Moved(e)..]);
  }

  /** What a call that parses remembers. */
  lemma WhatIsKept(hw: Hardware, default: Option<string>, st: Cache, e: Env)
    requires Context(hw, default, st, e) && Coherent(hw, st) && Parses(hw, default, st, e)
    ensures var st1 := Init(hw, default, st, e).0;
            && st1.lastParts == Copied(default, e) && st1.lastIds == IdsVar(default, e).value != ""
            && ParseMtdids(hw, st1.lastIds) == Some(st1.ids)
            && |IdsVar(default, e).value| < MTDIDS_MAXLEN && |PartsVar(e).value| < MTDPARTS_MAXLEN
  {
    CoreKeeps(hw, st, IdsVar(default, e).value, PartsVar(e).value, Copied(default, e));
  }

  lemma CoreKeeps(hw: Hardware, st: Cache, ids: string, parts: string, copied: string)
    requires ValidHardware(hw) && Coherent(hw, st) && Stale(st, ids, parts) && Core(hw, st, ids, Some(parts), copied).1 == 0
    ensures var st1 := Core(hw, st, ids, Some(parts), copied).0;
            && st1.lastParts == copied && st1.lastIds == ids != "" && ParseMtdids(hw, ids) == Some(st1.ids)
            && |ids| < MTDIDS_MAXLEN && |parts| < MTDPARTS_MAXLEN
  {
    ParsedNotEmpty(hw, st.ids, ids);
  }

  /** The first call of all, on texts that parse. */
  lemma FirstCall(
      hw: Hardware, default: Option<string>, e: Env, ids: string, v: string, list: seq<MtdId>, ds: seq<Device>)
    requires Context(hw, default, EMPTY, e) && IdsVar(default, e) == Some(ids) && PartsVar(e) == Some(v)
    requires |ids| < MTDIDS_MAXLEN && |v| < MTDPARTS_MAXLEN
    requires ParseMtdids(hw, ids) == Some(list) && ValidIds(list) && ParseMtdparts(list, v) == Some(ds)
    ensures Init(hw, default, EMPTY, e) == (Cache(list, ds, ids, Copied(default, e)), 0)
  {
    CoreFirst(hw, ids, v, list, ds, Copied(default, e));
  }

  lemma CoreFirst(hw: Hardware, ids: string, v: string, list: seq<MtdId>, ds: seq<Device>, copied: string)
    requires ValidHardware(hw) && |ids| < MTDIDS_MAXLEN && |v| < MTDPARTS_MAXLEN
    requires ParseMtdids(hw, ids) == Some(list) && ValidIds(list) && ParseMtdparts(list, v) == Some(ds)
    ensures Core(hw, EMPTY, ids, Some(v), copied) == (Cache(list, ds, ids, copied), 0)
  {
  }

  /** Text that is remembered is not parsed again. */
  lemma KnownTextIsKept(hw: Hardware, default: Option<string>, st: Cache, f: Env)
    requires Context(hw, default, st, f) && st.lastIds != "" && st.lastParts != ""
    requires |st.lastIds| < MTDIDS_MAXLEN && |st.lastParts| < MTDPARTS_MAXLEN
    requires IdsVar(default, f) == Some(st.lastIds) && PartsVar(f) == Some(st.lastParts)
    ensures Init(hw, default, st, f) == (st, 0)
  {
    KnownIsKept(hw, st, st.lastIds, CopiedOrNone(default, f));
  }

  lemma NoPrefixNoTable(hw: Hardware, ids: string, s: string)
    requires ValidHardware(hw) && !(PREFIX <= s)
    ensures Fresh(hw, ids, s) == None
  {
  }

  /** The first two calls of all, the second on what the first has copied. */
  lemma FirstTwoCalls(
      hw: Hardware, default: Option<string>, e: Env, f: Env, ids: string, v: string, list: seq<MtdId>, ds: seq<Device>)
    requires Context(hw, default, EMPTY, e) && ValidEnv(f) && IdsVar(default, e) == Some(ids) && PartsVar(e) == Some(v)
    requires |ids| < MTDIDS_MAXLEN && |v| < MTDPARTS_MAXLEN
    requires ParseMtdids(hw, ids) == Some(list) && ValidIds(list) && ParseMtdparts(list, v) == Some(ds)
    requires 0 < Moved(e) < |v| && OnePrefix(v) && IdsVar(default, f) == Some(ids) && PartsVar(f) == Some(v[Moved(e)..])
    ensures var st := Cache(list, ds, ids, v[Moved(e)..]);
            && Init(hw, default, EMPTY, e) == (st, 0) && Init(hw, default, st, f) == (st, 0)
            && Fresh(hw, ids, v[Moved(e)..]) == None
  {
    FirstCall(hw, default, e, ids, v, list, ds);
    CopyIsSuffix(default, e);
    FalseCopyIsBelieved(hw, default, EMPTY, e, f);
  }

  /** The smallest environment with these two variables. */
  ghost function Two(ids: string, parts: string): (e: Env)
    requires NUL !in ids && NUL !in parts
    ensures ValidEnv(e) && Lookup(e.bindings, IDS) == Some(ids) && PartsVar(e) == Some(parts)
    ensures e.bindings == [Binding(IDS, ids), Binding(PARTS, parts)]
  {
    SavedNames();
    var bs := [Binding(IDS, ids), Binding(PARTS, parts)];
    assert bs[1..] == [Binding(PARTS, parts)];
    assert IndexOf(bs, PARTS) == 1 + IndexOf(bs[1..], PARTS);
    Env(Image(bs), bs)
  }

  lemma ValueNoNul(e: Env, name: string)
    requires ValidEnv(e) && Lookup(e.bindings, name).Some?
    ensures NUL !in Lookup(e.bindings, name).value
  {
    assert Legal(e.bindings[IndexOf(e.bindings, name)]);
  }

  /** After a call that parsed, the next call is transparent in every environment exactly when what was copied is
      innocent, however far the variable was moved. */
  lemma InnocentExactly(hw: Hardware, default: Option<string>, st: Cache, e: Env)
    requires Context(hw, default, st, e) && Coherent(hw, st) && Parses(hw, default, st, e)
    ensures var (st1, ids) := (Init(hw, default, st, e).0, IdsVar(default, e).value);
            && ValidIds(st1.ids)
            && (TransparentNext(hw, default, st1) <==> Innocent(hw, ids, Copied(default, e), st1.devices))
  {
    var st1, ids, copied := Init(hw, default, st, e).0, IdsVar(default, e).value, Copied(default, e);
    InitIsFresh(hw, default, st, e);
    WhatIsKept(hw, default, st, e);
    if Innocent(hw, ids, copied, st1.devices) {
      CoherentIsTransparent(hw, default, st1);
    } else {
      CStringNoNul(Cleared(Settled(default, e)).data, ValueAt(e.bindings, PARTS));
      if Lookup(e.bindings, IDS).Some? { ValueNoNul(e, IDS); }
      var f := Two(ids, copied);
      KnownTextIsKept(hw, default, st1, f);
      assert !Transparent(hw, default, st1, f);
    }
  }

  /** So, with mtdparts moved by no more than its length, it is exactly when the environment was harmless. */
  lemma TransparentExactly(hw: Hardware, default: Option<string>, st: Cache, e: Env)
    requires Context(hw, default, st, e) && Coherent(hw, st) && Parses(hw, default, st, e)
    requires Moved(e) <= |PartsVar(e).value| && OnePrefix(PartsVar(e).value)
    ensures var st1 := Init(hw, default, st, e).0;
            && ValidIds(st1.ids) && (TransparentNext(hw, default, st1) <==> Harmless(e))
  {
    InnocentExactly(hw, default, st, e);
    if Harmless(e) {
      HarmlessIsSafe(hw, default, st, e);
    } else {
      WhatIsKept(hw, default, st, e);
      CopyIsSuffix(default, e);
      NoPrefixNoTable(hw, IdsVar(default, e).value, Copied(default, e));
    }
  }
}
