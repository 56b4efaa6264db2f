/** Pointers into the environment: what a pointer to a value shows after other variables were
    deleted, when the entries behind them have moved and old text is left behind the image. */
module EnvPointer {
  import opened Machine
  import opened EnvImage
  import opened EnvStore

  /** The byte array of an environment and the bindings it holds. */
  datatype Env = Env(data: seq<char>, bindings: seq<Binding>)

  ghost predicate ValidEnv(e: Env) {
    Represents(e.data, e.bindings) && UniqueNames(e.bindings)
  }

  // ------------------------------------------------------ deleting and setting

  lemma {:induction false} ImageShrinks(bs: seq<Binding>, name: string)
    requires UniqueNames(bs)
    ensures |Image(Others(bs, name))| <= |Image(bs)|
  {
    OthersSplices(bs, name);
    if IndexOf(bs, name) < |bs| { FlatShrinks(bs, IndexOf(bs, name)); }
  }

  lemma FlatShrinks(bs: seq<Binding>, k: nat)
    requires k < |bs|
    ensures |Flat(bs[..k] + bs[k + 1..])| + |Text(bs[k])| + 1 == |Flat(bs)|
  {
    FlatAround(bs, k);
    FlatAppend(bs[..k], bs[k + 1..]);
  }

  /** setenv without a value, of a variable that nothing guards. */
  ghost function Removed(e: Env, name: string): (e': Env)
    requires ValidEnv(e)
    ensures ValidEnv(e') && e'.bindings == Others(e.bindings, name) && |e'.data| == |e.data|
  {
    ImageShrinks(e.bindings, name);
    OthersKeeps(e.bindings, name);
    Env(Over(e.data, Others(e.bindings, name)), Others(e.bindings, name))
  }

  ghost function RemovedAll(e: Env, names: seq<string>): (e': Env)
    requires ValidEnv(e)
    ensures ValidEnv(e') && |e'.data| == |e.data|
    decreases |names|
  {
    if names == [] then e else RemovedAll(Removed(e, names[0]), names[1..])
  }

  /** setenv with a value, of a variable that nothing guards. */
  ghost function Added(e: Env, name: string, value: string): (e': Env)
    requires ValidEnv(e) && '=' !in name && NUL !in name && NUL !in value
    ensures ValidEnv(e') && |e'.data| == |e.data|
  {
    var bs := Others(e.bindings, name) + [Binding(name, value)];
    OthersKeeps(e.bindings, name);
    LookupOthers(e.bindings, name, name);
    if |Image(bs)| > |e.data| then Removed(e, name) else Env(Over(e.data, bs), bs)
  }

  /** Variables that no protection and no hook guards. */
  predicate Unguarded(name: string) {
    '=' !in name && NUL !in name && name !in ["serial#", "ethaddr", "stdin", "stdout", "stderr", "baudrate"]
  }

  /** On such variables setenv is just that. */
  lemma SetEnvIs(cfg: Config, e: Env, name: string, words: seq<string>)
    requires ValidEnv(e) && Unguarded(name) && |words| <= 1 && forall w | w in words :: NUL !in w
    ensures After(cfg, |e.data|, e.bindings, Request(name, words, true))
      == (if words == [] then Removed(e, name) else Added(e, name, words[0])).bindings
    ensures |Image(After(cfg, |e.data|, e.bindings, Request(name, words, true)))| <= |e.data|
    ensures Over(e.data, After(cfg, |e.data|, e.bindings, Request(name, words, true)))
      == (if words == [] then Removed(e, name) else Added(e, name, words[0])).data
  {
    assert !Refused(cfg, e.bindings, Request(name, words, true));
  }

  // --------------------------------------------------------- reading a string

  /** The C string at `p`. */
  function CString(d: seq<char>, p: nat): string
    decreases |d| - p
  {
    if p >= |d| || d[p] == NUL then "" else [d[p]] + CString(d, p + 1)
  }

  /** `s` and its NUL stand at `p`. */
  ghost predicate Spells(d: seq<char>, p: nat, s: string) {
    p + |s| < |d| && d[p + |s|] == NUL && forall i | 0 <= i < |s| :: d[p + i] == s[i] != NUL
  }

  lemma {:induction false} CStringIs(d: seq<char>, p: nat, s: string)
    requires Spells(d, p, s)
    ensures CString(d, p) == s
    decreases |s|
  {
    if s != "" {
      assert forall i | 0 <= i < |s| - 1 :: d[p + 1 + i] == d[p + (i + 1)] == s[1..][i];
      CStringIs(d, p + 1, s[1..]);
      assert [s[0]] + s[1..] == s;
    }
  }

  lemma {:induction false} CStringNoNul(d: seq<char>, p: nat)
    ensures NUL !in CString(d, p)
    decreases |d| - p
  {
    if p < |d| { CStringNoNul(d, p + 1); }
  }

  /** A pointer into a value shows the rest of the value. */
  lemma {:induction false} ReadsValue(e: Env, name: string, i: nat)
    requires ValidEnv(e) && Lookup(e.bindings, name).Some? && i <= |Lookup(e.bindings, name).value|
    ensures CString(e.data, ValueAt(e.bindings, name) + i) == Lookup(e.bindings, name).value[i..]
  {
    var k := IndexOf(e.bindings, name);
    ValueBytes(e, k);
    ReadsRest(e.data, ValueAt(e.bindings, name), e.bindings[k].value, i);
  }

  lemma ReadsRest(d: seq<char>, p: nat, s: string, i: nat)
    requires Spells(d, p, s) && i <= |s|
    ensures CString(d, p + i) == s[i..]
  {
    forall j | 0 <= j < |s| - i ensures d[p + i + j] == s[i..][j] != NUL {
      assert d[p + (i + j)] == s[i + j];
    }
    CStringIs(d, p + i, s[i..]);
  }

  lemma ValueBytes(e: Env, k: nat)
    requires ValidEnv(e) && k < |e.bindings|
    ensures Spells(e.data, Start(e.bindings, k) + |e.bindings[k].name| + 1, e.bindings[k].value)
  {
    var b, at := e.bindings[k], Start(e.bindings, k);
    EntryAt(e.data, e.bindings, k);
    forall j | 0 <= j < |b.value| ensures e.data[at + |b.name| + 1 + j] == b.value[j] != NUL {
      InsideEntry(e.data, e.bindings, k, at + |b.name| + 1 + j);
    }
  }

  // -------------------------------------------------------- how entries move

  /** How far the value of `name` moves when `gone` is deleted. */
  ghost function Step(bs: seq<Binding>, gone: string, name: string): nat {
    var j := IndexOf(bs, gone);
    if j < IndexOf(bs, name) then |Text(bs[j])| + 1 else 0
  }

  ghost function Shift(bs: seq<Binding>, names: seq<string>, name: string): nat {
    if names == [] then 0 else Step(bs, names[0], name) + Shift(bs, names[1..], name)
  }

  /** Where the other names are after a deletion. */
  lemma {:induction false} IndexAfter(bs: seq<Binding>, gone: string, name: string)
    requires UniqueNames(bs) && gone != name
    ensures var j, k := IndexOf(bs, gone), IndexOf(bs, name);
            var k' := IndexOf(Others(bs, gone), name);
            && k' == (if j < k then k - 1 else k)
            && (k < |bs| ==> k' < |Others(bs, gone)| && Others(bs, gone)[k'] == bs[k])
            && (k == |bs| ==> k' == |Others(bs, gone)|)
  {
    OthersKeeps(bs, gone);
    LookupOthers(bs, gone, name);
    SpliceEntry(bs, gone, IndexOf(bs, name));
    var j, k := IndexOf(bs, gone), IndexOf(bs, name);
    if k < |bs| {
      IndexIs(Others(bs, gone), name, if j < k then k - 1 else k);
    }
  }

  lemma {:induction false} SpliceEntry(bs: seq<Binding>, gone: string, k: nat)
    requires UniqueNames(bs) && (k < |bs| ==> bs[k].name != gone)
    ensures var j, rest := IndexOf(bs, gone), Others(bs, gone);
            var k' := if j < k then k - 1 else k;
            && |rest| == (if j < |bs| then |bs| - 1 else |bs|)
            && (k < |bs| ==> k' < |rest| && rest[k'] == bs[k])
  {
    OthersSplices(bs, gone);
  }

  /** One deletion moves the value by the deleted entry, if that stood before it. */
  lemma {:induction false} RemovedMoves(bs: seq<Binding>, gone: string, name: string)
    requires UniqueNames(bs) && gone != name && Lookup(bs, name).Some?
    ensures Lookup(Others(bs, gone), name) == Lookup(bs, name)
    ensures ValueAt(Others(bs, gone), name) + Step(bs, gone, name) == ValueAt(bs, name)
  {
    LookupOthers(bs, gone, name);
    IndexAfter(bs, gone, name);
    StartMoves(bs, gone, IndexOf(bs, name));
  }

  lemma {:induction false} StartMoves(bs: seq<Binding>, gone: string, k: nat)
    requires UniqueNames(bs) && k < |bs| && bs[k].name != gone
    ensures var j, rest := IndexOf(bs, gone), Others(bs, gone);
            var k' := if j < k then k - 1 else k;
            k' <= |rest| && Start(rest, k') == Start(bs, k) - if j < k then |Text(bs[j])| + 1 else 0
  {
    OthersSplices(bs, gone);
    StartAfter(bs, Others(bs, gone), IndexOf(bs, gone), k);
  }

  /** Where entry `k` starts after the deletion of another. */
  lemma StartAfter(bs: seq<Binding>, rest: seq<Binding>, j: nat, k: nat)
    requires k < |bs| && j != k && rest == if j < |bs| then bs[..j] + bs[j + 1..] else bs
    ensures var k' := if j < k then k - 1 else k;
            k' <= |rest| && Start(rest, k') == Start(bs, k) - if j < k then |Text(bs[j])| + 1 else 0
  {
    if j < |bs| { SpliceMoves(bs, j, k); }
  }

  /** Other deletions move it as far as before. */
  lemma {:induction false} StepStays(bs: seq<Binding>, gone: string, other: string, name: string)
    requires UniqueNames(bs) && gone != name && other != gone && Lookup(bs, name).Some?
    ensures Step(Others(bs, gone), other, name) == Step(bs, other, name)
  {
    IndexAfter(bs, gone, name);
    IndexAfter(bs, gone, other);
  }

  lemma {:induction false} ShiftStays(bs: seq<Binding>, gone: string, names: seq<string>, name: string)
    requires UniqueNames(bs) && gone != name && gone !in names && Lookup(bs, name).Some?
    ensures Shift(Others(bs, gone), names, name) == Shift(bs, names, name)
  {
    if names != [] {
      StepStays(bs, gone, names[0], name);
      ShiftStays(bs, gone, names[1..], name);
    }
  }

  ghost predicate Distinct(names: seq<string>) {
    forall i, j | 0 <= i < j < |names| :: names[i] != names[j]
  }

  /** A run of deletions keeps the value and moves it by all that stood before it. */
  lemma {:induction false} AllMove(e: Env, names: seq<string>, name: string)
    requires ValidEnv(e) && Distinct(names) && name !in names && Lookup(e.bindings, name).Some?
    ensures var bs' := RemovedAll(e, names).bindings;
            && Lookup(bs', name) == Lookup(e.bindings, name)
            && ValueAt(bs', name) + Shift(e.bindings, names, name) == ValueAt(e.bindings, name)
    decreases |names|
  {
    if names != [] {
      RemovedMoves(e.bindings, names[0], name);
      ShiftStays(e.bindings, names[0], names[1..], name);
      AllMove(Removed(e, names[0]), names[1..], name);
    }
  }

  /** None of `names` is stored before `name`. */
  ghost predicate NoneBefore(bs: seq<Binding>, names: seq<string>, name: string) {
    forall i | 0 <= i < |names| :: !(IndexOf(bs, names[i]) < IndexOf(bs, name))
  }

  lemma {:induction false} NoShift(bs: seq<Binding>, names: seq<string>, name: string)
    ensures Shift(bs, names, name) == 0 <==> NoneBefore(bs, names, name)
  {
    if names != [] {
      NoShift(bs, names[1..], name);
      assert NoneBefore(bs, names, name) ==> forall i | 0 <= i < |names| - 1 :: names[1..][i] == names[i + 1];
      if NoneBefore(bs, names[1..], name) && !(IndexOf(bs, names[0]) < IndexOf(bs, name)) {
        forall i | 0 <= i < |names| ensures !(IndexOf(bs, names[i]) < IndexOf(bs, name)) {
          if i > 0 { assert names[i] == names[1..][i - 1]; }
        }
      }
    }
  }

  // ------------------------------------------------------ the stale pointer

  /** What a pointer to the value of `name` shows once `names` are deleted. */
  ghost function StaleText(e: Env, names: seq<string>, name: string): string
    requires ValidEnv(e) && Lookup(e.bindings, name).Some?
  {
    CString(RemovedAll(e, names).data, ValueAt(e.bindings, name))
  }

  /** After a shift of at most its length, it shows the value without as many characters. */
  lemma {:induction false} StaleIsSuffix(e: Env, names: seq<string>, name: string)
    requires ValidEnv(e) && Distinct(names) && name !in names && Lookup(e.bindings, name).Some?
    requires Shift(e.bindings, names, name) <= |Lookup(e.bindings, name).value|
    ensures StaleText(e, names, name) == Lookup(e.bindings, name).value[Shift(e.bindings, names, name)..]
  {
    AllMove(e, names, name);
    ReadsMoved(RemovedAll(e, names), name, Shift(e.bindings, names, name), ValueAt(e.bindings, name));
  }

  lemma {:induction false} ReadsMoved(e: Env, name: string, i: nat, p: nat)
    requires ValidEnv(e) && Lookup(e.bindings, name).Some? && i <= |Lookup(e.bindings, name).value|
    requires p == ValueAt(e.bindings, name) + i
    ensures CString(e.data, p) == Lookup(e.bindings, name).value[i..]
  {
    ReadsValue(e, name, i);
  }

  /** So it shows the value exactly when nothing deleted stood before it. */
  lemma {:induction false} StaleExactly(e: Env, names: seq<string>, name: string)
    requires ValidEnv(e) && Distinct(names) && name !in names && Lookup(e.bindings, name).Some?
    requires Shift(e.bindings, names, name) <= |Lookup(e.bindings, name).value|
    ensures StaleText(e, names, name) == Lookup(e.bindings, name).value <==> NoneBefore(e.bindings, names, name)
  {
    StaleIsSuffix(e, names, name);
    NoShift(e.bindings, names, name);
  }

  /** Deletions leave the bytes behind the image alone. */
  lemma {:induction false} BehindStays(e: Env, names: seq<string>, p: nat)
    requires ValidEnv(e) && |Image(e.bindings)| <= p <= |e.data|
    ensures RemovedAll(e, names).data[p..] == e.data[p..]
    decreases |names|
  {
    if names != [] {
      ImageShrinks(e.bindings, names[0]);
      var e' := Removed(e, names[0]);
      assert e'.data[p..] == e.data[p..];
      BehindStays(e', names[1..], p);
    }
  }

  lemma {:induction false} CStringLocal(d: seq<char>, d': seq<char>, p: nat)
    requires p <= |d| == |d'| && d[p..] == d'[p..]
    ensures CString(d, p) == CString(d', p)
    decreases |d| - p
  {
    if p < |d| {
      assert d[p] == d[p..][0] && d'[p] == d'[p..][0];
      assert d[p + 1..] == d[p..][1..] && d'[p + 1..] == d'[p..][1..];
      CStringLocal(d, d', p + 1);
    }
  }

  /** A large shift can undo the harm: when the last variable moves completely below its old
      place, the old text is left there. */
  lemma {:induction false} OldTextIsLeft(e: Env, names: seq<string>, name: string)
    requires ValidEnv(e) && names != [] && names[0] != name && Lookup(e.bindings, name).Some?
    requires IndexOf(e.bindings, name) == |e.bindings| - 1
    requires Step(e.bindings, names[0], name) >= |Lookup(e.bindings, name).value| + 2
    ensures StaleText(e, names, name) == Lookup(e.bindings, name).value
  {
    BehindNewImage(e, names[0], name);
    ReadsValue(e, name, 0);
    ReadsBehind(e, names, ValueAt(e.bindings, name));
  }

  lemma BehindNewImage(e: Env, gone: string, name: string)
    requires ValidEnv(e) && Lookup(e.bindings, name).Some? && IndexOf(e.bindings, name) == |e.bindings| - 1
    requires Step(e.bindings, gone, name) >= |Lookup(e.bindings, name).value| + 2
    ensures |Image(Others(e.bindings, gone))| <= ValueAt(e.bindings, name) <= |e.data|
  {
    LastEnds(e, name);
    StepShortens(e.bindings, gone, name);
  }

  /** Text behind the image of the first deletion is read as before. */
  lemma {:induction false} ReadsBehind(e: Env, names: seq<string>, p: nat)
    requires ValidEnv(e) && names != [] && |Image(Others(e.bindings, names[0]))| <= p <= |e.data|
    ensures CString(RemovedAll(e, names).data, p) == CString(e.data, p)
  {
    var e' := Removed(e, names[0]);
    assert e'.data[p..] == e.data[p..];
    BehindStays(e', names[1..], p);
    CStringLocal(e.data, RemovedAll(e', names[1..]).data, p);
  }

  /** The last value ends with the image. */
  lemma {:induction false} LastEnds(e: Env, name: string)
    requires ValidEnv(e) && Lookup(e.bindings, name).Some? && IndexOf(e.bindings, name) == |e.bindings| - 1
    ensures |Image(e.bindings)| == ValueAt(e.bindings, name) + |Lookup(e.bindings, name).value| + 2
  {
    EntryAt(e.data, e.bindings, |e.bindings| - 1);
    assert e.bindings[..|e.bindings|] == e.bindings;
  }

  /** Deleting an entry before `name` shortens the image by as much as it moves the value. */
  lemma {:induction false} StepShortens(bs: seq<Binding>, gone: string, name: string)
    requires UniqueNames(bs) && Lookup(bs, name).Some? && IndexOf(bs, gone) < IndexOf(bs, name)
    ensures |Image(Others(bs, gone))| + Step(bs, gone, name) == |Image(bs)|
  {
    OthersSplices(bs, gone);
    ImageShortens(bs, Others(bs, gone), IndexOf(bs, gone));
  }

  lemma ImageShortens(bs: seq<Binding>, rest: seq<Binding>, k: nat)
    requires k < |bs| && |bs| > 1 && rest == bs[..k] + bs[k + 1..]
    ensures |Image(rest)| + |Text(bs[k])| + 1 == |Image(bs)|
  {
    FlatShrinks(bs, k);
  }
}
