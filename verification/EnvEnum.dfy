/** Enumerating the environment from a standalone application: the kernel side
    (API_env_enum) finds the entry after the last one, the application side
    (ub_env_enum) copies its name into one static buffer. */
module EnvEnum {
  import opened Machine
  import opened EnvImage
  import opened EnvStore

  const NAME_SIZE: nat := 256

  /** What API_env_enum stores through its result pointer. */
  datatype Next = Address(at: nat) | SameAsLast | NoMore

  method ApiEnvEnum(store: Store, last: Option<string>) returns (next: Next)
    requires store.Valid() && (last.Some? ==> NUL !in last.value && '=' !in last.value)
    ensures next == NextEntry(store.bindings, last)
  {
    if last.None? { return Address(0); }
    KeyIsWhole(last.value);
    ghost var k;
    var env, nxt, val;
    env, nxt, val, k := store.Search(last.value);
    if val == -1 { return SameAsLast; }
    EntryFacts(store.data, store.bindings, k);
    if store.data[nxt + 1] == NUL { return NoMore; }
    return Address(nxt + 1);
  }

  ghost function NextEntry(bs: seq<Binding>, last: Option<string>): Next {
    if last.None? then Address(0)
    else
      var k := IndexOf(bs, last.value);
      if k == |bs| then SameAsLast
      else if k + 1 == |bs| then NoMore
      else Address(Start(bs, k + 1))
  }

  /** The name the application sees. When the last name is not in the environment the
      kernel hands the buffer itself back, which has just been cleared. */
  ghost function NextName(bs: seq<Binding>, last: Option<string>): Option<string> {
    if last.None? then Some(if bs == [] then "" else bs[0].name)
    else
      var k := IndexOf(bs, last.value);
      if k == |bs| then Some("")
      else if k + 1 == |bs| then None
      else Some(bs[k + 1].name)
  }

  class Application {
    const store: Store
    const envName: array<char>

    constructor (store: Store)
      ensures this.store == store && envName.Length == NAME_SIZE && fresh(envName)
    {
      this.store := store;
      envName := new char[NAME_SIZE](_ => NUL);
    }

    ghost predicate Valid()
      reads this, store, store.data
    {
      && store.Valid() && envName.Length == NAME_SIZE && envName != store.data
      && forall i | 0 <= i < |store.bindings| :: |store.bindings[i].name| < NAME_SIZE
    }

    /** ub_env_enum; `last` is NULL or the text now in the static buffer. */
    method EnvEnum(last: Option<string>) returns (more: bool, ghost name: string)
      requires Valid()
      requires last.Some? ==> NUL !in last.value && '=' !in last.value && Holds(envName, 0, last.value)
      modifies envName
      ensures Valid() && store.data[..] == old(store.data[..])
      ensures NextName(store.bindings, last) == if more then Some(name) else None
      ensures more ==> NUL !in name && '=' !in name && Holds(envName, 0, name)
    {
      name := "";
      var next := ApiEnvEnum(store, last);
      if next.NoMore? { return false, name; }
      more := true;
      forall i | 0 <= i < NAME_SIZE { envName[i] := NUL; }
      assert store.data[..] == old(store.data[..]);
      if next.Address? {
        name := NextName(store.bindings, last).value;
        NameAt(store.data, store.bindings, last);
        CopyName(next.at, name);
      }
    }

    lemma NameAt(data: array<char>, bs: seq<Binding>, last: Option<string>)
      requires Represents(data[..], bs) && NextEntry(bs, last).Address?
      ensures var at, name := NextEntry(bs, last).at, NextName(bs, last).value;
              && at + |name| < data.Length && data[at + |name|] in ['=', NUL]
              && forall j | 0 <= j < |name| :: data[at + j] == name[j] && name[j] !in ['=', NUL]
      ensures NextName(bs, last).value == "" || exists k | 0 <= k < |bs| :: bs[k].name == NextName(bs, last).value
    {
      if bs == [] {
        StartIsNul(data[..], bs, 0);
        assert data[..][0] == data[0];
      } else {
        EntryName(data, bs, if last.None? then 0 else IndexOf(bs, last.value) + 1);
      }
    }

    lemma EntryName(data: array<char>, bs: seq<Binding>, k: nat)
      requires Represents(data[..], bs) && k < |bs|
      ensures var at, name := Start(bs, k), bs[k].name;
              && at + |name| < data.Length && data[at + |name|] in ['=', NUL]
              && forall j | 0 <= j < |name| :: data[at + j] == name[j] && name[j] !in ['=', NUL]
    {
      HoldsEntry(data, bs, k);
      NameEnds(data, Start(bs, k), bs[k]);
    }

    lemma NameEnds(data: array<char>, at: nat, b: Binding)
      requires Legal(b) && Holds(data, at, Text(b))
      ensures forall j | 0 <= j < |b.name| :: data[at + j] == b.name[j]
      ensures data[at + |b.name|] == '='
    {
      var t := Text(b);
      assert t[|b.name|] == '=' && forall j | 0 <= j < |b.name| :: t[j] == b.name[j];
    }

    method CopyName(at: nat, ghost name: string)
      requires envName.Length == NAME_SIZE && |name| < NAME_SIZE && envName != store.data
      requires at + |name| < store.data.Length && store.data[at + |name|] in ['=', NUL]
      requires forall j | 0 <= j < |name| :: store.data[at + j] == name[j] && name[j] !in ['=', NUL]
      modifies envName
      ensures Holds(envName, 0, name) && store.data[..] == old(store.data[..])
    {
      var i := 0;
      while store.data[at + i] != '=' && store.data[at + i] != NUL
        invariant i <= |name| && (i < |name| ==> store.data[at + i] == name[i])
        invariant forall j | 0 <= j < i :: envName[j] == name[j]
        invariant store.data[..] == old(store.data[..])
        decreases |name| - i
      {
        envName[i] := store.data[at + i];
        i := i + 1;
      }
      envName[i] := NUL;
    }

    /** The demo loop: call ub_env_enum until it returns NULL. */
    method EnumerateAll() returns (names: seq<string>)
      requires Valid() && store.bindings != []
      modifies envName
      ensures |names| == |store.bindings|
      ensures forall i | 0 <= i < |names| :: names[i] == store.bindings[i].name
    {
      ghost var bs := store.bindings;
      var more; ghost var name;
      more, name := EnvEnum(None);
      names := [];
      while more
        invariant Valid() && store.bindings == bs && |names| <= |bs|
        invariant forall i | 0 <= i < |names| :: names[i] == bs[i].name
        invariant more <==> |names| < |bs|
        invariant more ==> name == bs[|names|].name && NUL !in name && '=' !in name && Holds(envName, 0, name)
        decreases |bs| - |names|
      {
        assert IndexOf(bs, name) == |names|;
        var text := ReadName(name);
        more, name := EnvEnum(Some(text));
        names := names + [text];
      }
    }

    method ReadName(ghost name: string) returns (s: string)
      requires Holds(envName, 0, name)
      ensures s == name
    {
      s := [];
      while envName[|s|] != NUL
        invariant |s| <= |name| && s == name[..|s|] && (|s| < |name| ==> envName[0 + |s|] == name[|s|])
        decreases |name| - |s|
      {
        s := s + [envName[|s|]];
      }
    }
  }

  /** The result of the n-th call when each call is given the previous result. */
  ghost function Call(bs: seq<Binding>, n: nat): Option<string> {
    NextName(bs, if n == 0 then None else Call(bs, n - 1))
  }

  /** From NULL, a non-empty environment yields every name once, in storage order, and then NULL. */
  lemma {:induction false} EnumerationIsComplete(bs: seq<Binding>, n: nat)
    requires bs != [] && UniqueNames(bs) && n <= |bs|
    ensures Call(bs, n) == if n < |bs| then Some(bs[n].name) else None
  {
    if n > 0 {
      EnumerationIsComplete(bs, n - 1);
      assert IndexOf(bs, bs[n - 1].name) == n - 1;
    }
  }

  /** An empty environment is different: the enumeration never returns NULL. */
  lemma {:induction false} EmptyEnumerationNeverEnds(n: nat)
    ensures Call([], n) == Some("")
  {
  }
}
