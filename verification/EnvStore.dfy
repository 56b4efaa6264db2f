/** The environment store: in-place search, delete and append on the byte
    array, specified by an ordered list of bindings. */
module EnvStore {
  import opened Machine
  import opened EnvImage

  // ---------------------------------------------------------------- lookup

  function IndexOf(bs: seq<Binding>, name: string): (k: nat)
    ensures k <= |bs|
    ensures k < |bs| ==> bs[k].name == name
    ensures forall i | 0 <= i < k :: bs[i].name != name
  {
    if bs == [] || bs[0].name == name then 0 else 1 + IndexOf(bs[1..], name)
  }

  function Lookup(bs: seq<Binding>, name: string): Option<string> {
    var k := IndexOf(bs, name);
    if k < |bs| then Some(bs[k].value) else None
  }

  /** The bindings other than `name`, in their order. */
  function Others(bs: seq<Binding>, name: string): seq<Binding> {
    if bs == [] then []
    else if bs[0].name == name then Others(bs[1..], name)
    else [bs[0]] + Others(bs[1..], name)
  }

  /** Argument words joined by single spaces. */
  function Join(words: seq<string>): string {
    if words == [] then []
    else if |words| == 1 then words[0]
    else Join(words[..|words| - 1]) + " " + words[|words| - 1]
  }

  // ------------------------------------------------------- what setenv means

  /** Board configuration: CONFIG_ENV_OVERWRITE, and the default address when
      CONFIG_OVERWRITE_ETHADDR_ONCE and CONFIG_ETHADDR are both set. */
  datatype Config = Config(overwrite: bool, ethaddrOnce: Option<string>)

  /** One setenv: the words after the name (none: delete), and whether the console
      and baud-rate hooks accept the new value. */
  datatype Request = Request(name: string, words: seq<string>, hooksAccept: bool)

  predicate LegalRequest(q: Request) {
    NUL !in q.name && forall i | 0 <= i < |q.words| :: NUL !in q.words[i]
  }

  predicate WriteProtected(cfg: Config, name: string, held: string) {
    && !cfg.overwrite
    && (name == "serial#" || (name == "ethaddr" && cfg.ethaddrOnce != Some(held)))
  }

  predicate IsConsole(name: string) {
    name == "stdin" || name == "stdout" || name == "stderr"
  }

  predicate HookRejects(q: Request) {
    || (IsConsole(q.name) && (q.words == [] || !q.hooksAccept))
    || (q.name == "baudrate" && !q.hooksAccept)
  }

  predicate Refused(cfg: Config, bs: seq<Binding>, q: Request) {
    || '=' in q.name
    || (Lookup(bs, q.name).Some?
        && (WriteProtected(cfg, q.name, Lookup(bs, q.name).value) || HookRejects(q)))
  }

  ghost predicate Overflows(size: nat, bs: seq<Binding>, q: Request) {
    q.words != [] && |Image(Others(bs, q.name) + [Binding(q.name, Join(q.words))])| > size
  }

  /** The bindings after one setenv on an area of `size` bytes. */
  ghost function After(cfg: Config, size: nat, bs: seq<Binding>, q: Request): seq<Binding> {
    if Refused(cfg, bs, q) then bs
    else if q.words == [] || Overflows(size, bs, q) then Others(bs, q.name)
    else Others(bs, q.name) + [Binding(q.name, Join(q.words))]
  }

  ghost predicate Fails(cfg: Config, size: nat, bs: seq<Binding>, q: Request) {
    Refused(cfg, bs, q) || Overflows(size, bs, q)
  }

  // ------------------------------------------------- setenv as a map update

  lemma {:induction false} LookupOthers(bs: seq<Binding>, name: string, other: string)
    ensures Lookup(Others(bs, name), other) == if other == name then None else Lookup(bs, other)
  {
    if bs != [] { LookupOthers(bs[1..], name, other); }
  }

  lemma {:induction false} LookupAppend(bs: seq<Binding>, b: Binding, other: string)
    ensures Lookup(bs + [b], other) ==
            if Lookup(bs, other).Some? then Lookup(bs, other)
            else if other == b.name then Some(b.value) else None
  {
    if bs != [] {
      assert (bs + [b])[1..] == bs[1..] + [b];
      LookupAppend(bs[1..], b, other);
    }
  }

  lemma {:induction false} OthersAppend(bs: seq<Binding>, b: Binding, name: string)
    ensures Others(bs + [b], name) == Others(bs, name) + if b.name == name then [] else [b]
  {
    if bs != [] {
      assert (bs + [b])[1..] == bs[1..] + [b];
      OthersAppend(bs[1..], b, name);
    }
  }

  lemma {:induction false} OthersTwice(bs: seq<Binding>, name: string)
    ensures Others(Others(bs, name), name) == Others(bs, name)
  {
    if bs != [] { OthersTwice(bs[1..], name); }
  }

  /** A successful setenv is a map update that keeps every other binding and their order;
      a refused one changes nothing; an overflowing one deletes the name. */
  lemma {:induction false} SetEnvIsMapUpdate(cfg: Config, size: nat, bs: seq<Binding>, q: Request)
    ensures var bs' := After(cfg, size, bs, q);
            && Others(bs', q.name) == Others(bs, q.name)
            && (forall other | other != q.name :: Lookup(bs', other) == Lookup(bs, other))
            && Lookup(bs', q.name) ==
               if Refused(cfg, bs, q) then Lookup(bs, q.name)
               else if q.words != [] && !Fails(cfg, size, bs, q) then Some(Join(q.words))
               else None
  {
    var b := Binding(q.name, Join(q.words));
    OthersTwice(bs, q.name);
    OthersAppend(Others(bs, q.name), b, q.name);
    forall other: string
      ensures Lookup(Others(bs, q.name), other) == if other == q.name then None else Lookup(bs, other)
      ensures Lookup(Others(bs, q.name) + [b], other) ==
              if other == q.name then Some(b.value) else Lookup(bs, other)
    {
      LookupOthers(bs, q.name, other);
      LookupAppend(Others(bs, q.name), b, other);
    }
  }

  lemma {:induction false} OthersAbsent(bs: seq<Binding>, name: string)
    requires forall i | 0 <= i < |bs| :: bs[i].name != name
    ensures Others(bs, name) == bs
  {
    if bs != [] { OthersAbsent(bs[1..], name); }
  }

  /** Removing the one occurrence of a unique name splices the list. */
  lemma {:induction false} OthersSplices(bs: seq<Binding>, name: string)
    requires UniqueNames(bs)
    ensures var k := IndexOf(bs, name);
            Others(bs, name) == if k < |bs| then bs[..k] + bs[k + 1..] else bs
  {
    if bs != [] && bs[0].name == name {
      OthersAbsent(bs[1..], name);
    } else if bs != [] {
      OthersSplices(bs[1..], name);
      assert bs == [bs[0]] + bs[1..];
      var k := IndexOf(bs[1..], name);
      if k < |bs| - 1 { SpliceCons(bs, k); }
    }
  }

  lemma SpliceCons(bs: seq<Binding>, k: nat)
    requires k + 1 < |bs|
    ensures [bs[0]] + (bs[1..][..k] + bs[1..][k + 1..]) == bs[..k + 1] + bs[k + 2..]
  {
  }

  lemma {:induction false} OthersKeeps(bs: seq<Binding>, name: string)
    requires UniqueNames(bs)
    ensures AllLegal(bs) ==> AllLegal(Others(bs, name))
    ensures UniqueNames(Others(bs, name))
  {
    OthersSplices(bs, name);
    var k := IndexOf(bs, name);
    if k < |bs| && AllLegal(bs) { AllLegalSplice(bs, k); }
    if k < |bs| { UniqueSplice(bs, k); }
  }

  lemma {:induction false} JoinNoNul(words: seq<string>)
    requires forall i | 0 <= i < |words| :: NUL !in words[i]
    ensures NUL !in Join(words)
  {
    if |words| > 1 { JoinNoNul(words[..|words| - 1]); }
  }

  /** The invariant of the store survives every setenv. */
  lemma AfterIsLegal(cfg: Config, size: nat, bs: seq<Binding>, q: Request)
    requires AllLegal(bs) && UniqueNames(bs) && LegalRequest(q)
    ensures AllLegal(After(cfg, size, bs, q)) && UniqueNames(After(cfg, size, bs, q))
  {
    OthersKeeps(bs, q.name);
    JoinNoNul(q.words);
    LookupOthers(bs, q.name, q.name);
  }

  // ------------------------------------------------- pointers into the image

  /** Where getenv points for a bound name. */
  ghost function ValueAt(bs: seq<Binding>, name: string): nat
    requires Lookup(bs, name).Some?
  {
    Start(bs, IndexOf(bs, name)) + |name| + 1
  }

  lemma {:induction false} IndexIs(bs: seq<Binding>, name: string, k: nat)
    requires k < |bs| && bs[k].name == name && UniqueNames(bs)
    ensures IndexOf(bs, name) == k
  {
  }

  /** Removing entry `j` moves the entries behind it down by its length, and no others. */
  lemma SpliceMoves(bs: seq<Binding>, j: nat, k: nat)
    requires j < |bs| && k < |bs| && j != k
    ensures var bs', k' := bs[..j] + bs[j + 1..], if j < k then k - 1 else k;
            bs'[k'] == bs[k] && Start(bs', k') == Start(bs, k) - if j < k then |Text(bs[j])| + 1 else 0
  {
    var bs' := bs[..j] + bs[j + 1..];
    if j < k {
      assert bs'[..k - 1] == bs[..j] + bs[j + 1..k];
      FlatAppend(bs[..j], bs[j + 1..k]);
      FlatAround(bs[..k], j);
      assert bs[..k][..j] == bs[..j] && bs[..k][j + 1..] == bs[j + 1..k];
    } else {
      assert bs'[..k] == bs[..k];
    }
  }

  /** A pointer that getenv returned for one name survives a setenv of another name exactly
      when that other name was not stored before it. */
  lemma {:induction false} PointerSurvives(cfg: Config, size: nat, bs: seq<Binding>, q: Request, name: string)
    requires AllLegal(bs) && UniqueNames(bs) && LegalRequest(q) && !Refused(cfg, bs, q)
    requires Lookup(bs, name).Some? && q.name != name
    ensures var bs' := After(cfg, size, bs, q);
            && Lookup(bs', name) == Lookup(bs, name)
            && (ValueAt(bs', name) == ValueAt(bs, name) <==> !(IndexOf(bs, q.name) < IndexOf(bs, name)))
  {
    SetEnvIsMapUpdate(cfg, size, bs, q);
    AfterIsLegal(cfg, size, bs, q);
    PointerMoves(bs, q.name, name, After(cfg, size, bs, q));
  }

  /** Where the value of `name` is once `gone` is removed and anything is appended. */
  lemma {:induction false} PointerMoves(bs: seq<Binding>, gone: string, name: string, bs': seq<Binding>)
    requires UniqueNames(bs) && UniqueNames(bs') && Others(bs, gone) <= bs'
    requires Lookup(bs, name).Some? && Lookup(bs', name) == Lookup(bs, name) && gone != name
    ensures ValueAt(bs', name) == ValueAt(bs, name) <==> !(IndexOf(bs, gone) < IndexOf(bs, name))
  {
    OthersSplices(bs, gone);
    var j, k := IndexOf(bs, gone), IndexOf(bs, name);
    var k' := if j < k then k - 1 else k;
    if j < |bs| { SpliceMoves(bs, j, k); }
    StartInPrefix(Others(bs, gone), bs', k');
    IndexIs(bs', name, k');
  }

  lemma StartInPrefix(a: seq<Binding>, b: seq<Binding>, k: nat)
    requires a <= b && k <= |a|
    ensures Start(a, k) == Start(b, k)
  {
    assert a[..k] == b[..k];
  }

  // ------------------------------------------------ vendor parameters, runs

  ghost function AfterAll(cfg: Config, size: nat, bs: seq<Binding>, qs: seq<Request>): seq<Binding>
    decreases |qs|
  {
    if qs == [] then bs else AfterAll(cfg, size, After(cfg, size, bs, qs[0]), qs[1..])
  }

  /** Once a protected parameter has a value, no run of set, delete, refused or
      overflowing calls on any names changes or removes it. */
  lemma {:induction false} VendorParametersAreWriteOnce(
      cfg: Config, size: nat, bs: seq<Binding>, qs: seq<Request>, name: string, value: string)
    requires Lookup(bs, name) == Some(value) && WriteProtected(cfg, name, value)
    ensures Lookup(AfterAll(cfg, size, bs, qs), name) == Some(value)
    decreases |qs|
  {
    if qs != [] {
      SetEnvIsMapUpdate(cfg, size, bs, qs[0]);
      VendorParametersAreWriteOnce(cfg, size, After(cfg, size, bs, qs[0]), qs[1..], name, value);
    }
  }

  /** Any other value can be deleted by one call; so the lock is exactly WriteProtected
      (console and baud-rate variables have hooks of their own). */
  lemma UnprotectedCanBeDeleted(cfg: Config, size: nat, bs: seq<Binding>, name: string, value: string)
    requires Lookup(bs, name) == Some(value) && !WriteProtected(cfg, name, value)
    requires '=' !in name && !IsConsole(name)
    ensures Lookup(After(cfg, size, bs, Request(name, [], true)), name) == None
  {
    SetEnvIsMapUpdate(cfg, size, bs, Request(name, [], true));
  }

  // ------------------------------------------------------------ the store

  /** The part of a string before its first '='. */
  function KeyOf(s: string): string {
    if s == [] || s[0] == '=' then [] else [s[0]] + KeyOf(s[1..])
  }

  lemma {:induction false} KeyOfProps(s: string)
    ensures KeyOf(s) <= s && '=' !in KeyOf(s)
    ensures |KeyOf(s)| < |s| ==> s[|KeyOf(s)|] == '='
  {
    if s != [] && s[0] != '=' { KeyOfProps(s[1..]); }
  }

  lemma {:induction false} KeyStops(s: string, i: nat)
    requires i <= |s| && '=' !in s[..i] && At(s, i) in [NUL, '=']
    requires i < |s| ==> s[i] == '='
    ensures KeyOf(s) == s[..i]
  {
    if i > 0 {
      assert s[..i][0] == s[0] && s[1..][..i - 1] == s[..i][1..];
      KeyStops(s[1..], i - 1);
    }
  }

  /** A name without '=' is its own key. */
  lemma {:induction false} KeyIsWhole(s: string)
    requires '=' !in s
    ensures KeyOf(s) == s
  {
    KeyStops(s, |s|);
    assert s[..|s|] == s;
  }

  /** Comparing a key with an entry text stops at the first difference. */
  lemma {:induction false} KeyDiffers(s: string, b: Binding, i: nat)
    requires Legal(b) && i <= |s| && i <= |b.name| && s[..i] == b.name[..i]
    requires At(s, i) != Text(b)[i] && !(i == |s| && Text(b)[i] == '=')
    ensures KeyOf(s) != b.name
  {
    KeyOfProps(s);
  }

  /** `text` is stored at index `at` of `data`, closed by a NUL. */
  ghost predicate Holds(data: array<char>, at: nat, text: string)
    reads data
  {
    && at + |text| < data.Length
    && data[at + |text|] == NUL
    && forall j | 0 <= j < |text| :: data[at + j] == text[j] != NUL
  }

  lemma AtNul(data: array<char>, bs: seq<Binding>, k: nat)
    requires Represents(data[..], bs) && k <= |bs|
    ensures Start(bs, k) < data.Length
    ensures data[Start(bs, k)] == NUL <==> k == |bs|
  {
    StartIsNul(data[..], bs, k);
  }

  lemma HoldsEntry(data: array<char>, bs: seq<Binding>, k: nat)
    requires Represents(data[..], bs) && k < |bs|
    ensures Holds(data, Start(bs, k), Text(bs[k]))
    ensures Start(bs, k + 1) == Start(bs, k) + |Text(bs[k])| + 1
  {
    var d := data[..];
    EntryAt(d, bs, k);
    forall j | 0 <= j < |Text(bs[k])|
      ensures data[Start(bs, k) + j] == Text(bs[k])[j] != NUL
    {
      InsideEntry(d, bs, k, Start(bs, k) + j);
    }
  }

  lemma HoldsValue(data: array<char>, at: nat, b: Binding)
    requires Holds(data, at, Text(b))
    ensures Holds(data, at + |b.name| + 1, b.value)
  {
    var v := at + |b.name| + 1;
    forall j | 0 <= j < |b.value|
      ensures data[v + j] == b.value[j] != NUL
    {
      assert data[at + (|b.name| + 1 + j)] == Text(b)[|b.name| + 1 + j];
    }
  }

  /** Entry `k`, its value, and what comes after it. */
  lemma EntryFacts(data: array<char>, bs: seq<Binding>, k: nat)
    requires Represents(data[..], bs) && k < |bs|
    ensures Holds(data, Start(bs, k), Text(bs[k]))
    ensures Holds(data, Start(bs, k) + |bs[k].name| + 1, bs[k].value)
    ensures Start(bs, k) + |Text(bs[k])| + 1 == Start(bs, k + 1) < data.Length
    ensures data[Start(bs, k + 1)] == NUL <==> k + 1 == |bs|
  {
    HoldsEntry(data, bs, k);
    HoldsValue(data, Start(bs, k), bs[k]);
    AtNul(data, bs, k + 1);
  }

  /** The end of the string that starts at `from`. */
  method StringEnd(data: array<char>, from: nat, ghost text: string) returns (nxt: nat)
    requires Holds(data, from, text)
    ensures nxt == from + |text|
  {
    var j := 0;
    while data[from + j] != NUL
      invariant j <= |text| && (j < |text| ==> data[from + j] == text[j] != NUL)
      decreases |text| - j
    {
      j := j + 1;
    }
    nxt := from + j;
  }

  /** Match `s` (a name, or "name=value") against the entry at `i2`; the value's index, or -1. */
  method EnvMatch(data: array<char>, s: string, i2: nat, ghost b: Binding) returns (r: int)
    requires Legal(b) && NUL !in s && Holds(data, i2, Text(b))
    ensures r == if KeyOf(s) == b.name then i2 + |b.name| + 1 else -1
  {
    var i := 0;
    ghost var text := Text(b);
    assert forall j | 0 <= j < |b.name| :: text[j] == b.name[j] != '=';
    while At(s, i) == data[i2 + i]
      invariant i <= |b.name| && i <= |s|
      invariant s[..i] == b.name[..i]
      decreases |b.name| - i
    {
      assert data[i2 + i] == text[i];
      if s[i] == '=' {
        KeyStops(s, i);
        return i2 + i + 1;
      }
      i := i + 1;
    }
    assert data[i2 + i] == text[i];
    if i == |s| && data[i2 + i] == '=' {
      KeyStops(s, i);
      return i2 + i + 1;
    }
    KeyDiffers(s, b, i);
    return -1;
  }

  predicate DoubleAt(d: seq<char>, j: nat) {
    j + 1 < |d| && d[j] == NUL == d[j + 1]
  }

  lemma DoubleNulOnce(d: seq<char>, bs: seq<Binding>)
    requires Represents(d, bs)
    ensures forall j | 0 <= j < |Image(bs)| - 1 :: DoubleAt(d, j) <==> j == |Image(bs)| - 2
  {
    forall j | 0 <= j < |Image(bs)| - 1
      ensures DoubleAt(d, j) <==> j == |Image(bs)| - 2
    {
      FirstDoubleNul(d, bs, j);
    }
  }

  /** Move the strings in [from, last] down to `dest` and close them with a NUL. */
  method ShiftDown(data: array<char>, dest: nat, from: nat, ghost d: seq<char>, ghost last: nat)
    requires d == data[..] && dest < from <= last < data.Length - 1
    requires forall j | from <= j <= last :: DoubleAt(d, j) <==> j == last
    modifies data
    ensures data[..] == d[..dest] + d[from..last + 1] + [NUL] + d[dest + (last + 1 - from) + 1..]
  {
    var env := MoveDown(data, dest, from, d, last);
    env := env + 1;
    data[env] := NUL;
    ghost var d' := data[..];
    ShiftedImage(d, d', dest, from, last);
  }

  /** The moving loop: up to the first of two NULs. */
  method MoveDown(data: array<char>, dest: nat, from: nat, ghost d: seq<char>, ghost last: nat) returns (env: nat)
    requires d == data[..] && dest < from <= last < data.Length - 1
    requires forall j | from <= j <= last :: DoubleAt(d, j) <==> j == last
    modifies data
    ensures env == last - (from - dest)
    ensures forall j | 0 <= j < dest || env < j < data.Length :: data[j] == d[j]
    ensures forall j | dest <= j <= env :: data[j] == d[j + (from - dest)]
  {
    ghost var shift := from - dest;
    var nxt := from;
    env := dest;
    while true
      invariant dest <= env && nxt == env + shift <= last
      invariant forall j | 0 <= j < dest || env <= j < data.Length :: data[j] == d[j]
      invariant forall j | dest <= j < env :: data[j] == d[j + shift]
      decreases last - nxt
    {
      data[env] := data[nxt];
      nxt := nxt + 1;
      assert DoubleAt(d, nxt - 1) <==> d[nxt - 1] == NUL == d[nxt];
      if data[env] == NUL && data[nxt] == NUL { break; }
      env := env + 1;
    }
  }

  lemma ShiftedImage(d: seq<char>, d': seq<char>, dest: nat, from: nat, last: nat)
    requires dest < from <= last < |d| - 1 && |d'| == |d|
    requires forall j | 0 <= j < dest :: d'[j] == d[j]
    requires forall j | dest <= j <= last - (from - dest) :: d'[j] == d[j + (from - dest)]
    requires d'[last - (from - dest) + 1] == NUL
    requires forall j | last - (from - dest) + 1 < j < |d| :: d'[j] == d[j]
    ensures d' == d[..dest] + d[from..last + 1] + [NUL] + d[dest + (last + 1 - from) + 1..]
  {
  }

  /** Cut the image off at the last entry, which starts at `start`. */
  method DropLast(data: array<char>, start: nat, ghost bs: seq<Binding>)
    requires Represents(data[..], bs) && bs != [] && start == Start(bs, |bs| - 1)
    modifies data
    ensures |Image(bs[..|bs| - 1])| <= data.Length
    ensures data[..] == Over(old(data[..]), bs[..|bs| - 1])
  {
    ghost var d := data[..];
    LastPieces(d, bs);
    var env := start;
    if env > 0 {
      env := env - 1;
    } else {
      data[env] := NUL;
    }
    env := env + 1;
    data[env] := NUL;
    ghost var rest := if start > 0 then d[..start] + [NUL] else [NUL, NUL];
    assert data[..] == rest + d[|rest|..];
  }

  /** The image without its last entry is the image before it, closed. */
  lemma LastPieces(d: seq<char>, bs: seq<Binding>)
    requires Represents(d, bs) && bs != []
    ensures var s := Start(bs, |bs| - 1);
            s + 1 < |d| && Image(bs[..|bs| - 1]) == if s > 0 then d[..s] + [NUL] else [NUL, NUL]
  {
    var k := |bs| - 1;
    EntryAt(d, bs, k);
    FlatAround(bs, k);
    assert k > 0 ==> Flat(bs[..k]) != [] by { if k > 0 { assert bs[..k][0] == bs[0]; } }
    assert Flat(bs)[..Start(bs, k)] == Flat(bs[..k]);
    assert d[..Start(bs, k)] == Image(bs)[..Start(bs, k)] == Flat(bs[..k]);
  }

  lemma ImageWithout(d: seq<char>, bs: seq<Binding>, k: nat, d': seq<char>)
    requires Represents(d, bs) && k + 1 < |bs|
    requires var s, e := Start(bs, k), Start(bs, k + 1);
             s < e < |Flat(bs)| < |d| && d' == d[..s] + d[e..|Flat(bs)|] + [NUL] + d[s + (|Flat(bs)| - e) + 1..]
    ensures |Image(bs[..k] + bs[k + 1..])| <= |d| && d' == Over(d, bs[..k] + bs[k + 1..])
  {
    PiecesAround(d, bs, k);
    FlatAppend(bs[..k], bs[k + 1..]);
    var image := d[..Start(bs, k)] + d[Start(bs, k + 1)..|Flat(bs)|] + [NUL];
    assert Image(bs[..k] + bs[k + 1..]) == image;
  }

  lemma {:induction false} PiecesAround(d: seq<char>, bs: seq<Binding>, k: nat)
    requires Represents(d, bs) && k < |bs|
    ensures Start(bs, k) < Start(bs, k + 1) <= |Flat(bs)| < |d|
    ensures d[..Start(bs, k)] == Flat(bs[..k]) && d[Start(bs, k + 1)..|Flat(bs)|] == Flat(bs[k + 1..])
  {
    FlatAround(bs, k);
    ThreePieces(d, Flat(bs[..k]), Text(bs[k]) + [NUL], Flat(bs[k + 1..]));
  }

  lemma ThreePieces(d: seq<char>, a: string, b: string, c: string)
    requires a + b + c + [NUL] <= d
    ensures d[..|a|] == a && d[|a| + |b|..|a| + |b| + |c|] == c && |a| + |b| + |c| < |d|
  {
    var s := a + b + c + [NUL];
    assert d[..|a|] == s[..|a|] && d[|a| + |b|..|a| + |b| + |c|] == s[|a| + |b|..|a| + |b| + |c|];
  }

  /** Move the entries behind entry `k` over it. */
  method Splice(data: array<char>, start: nat, next: nat, ghost bs: seq<Binding>, ghost k: nat)
    requires Represents(data[..], bs) && k + 1 < |bs| && start == Start(bs, k) && next == Start(bs, k + 1)
    modifies data
    ensures |Image(bs[..k] + bs[k + 1..])| <= data.Length
    ensures data[..] == Over(old(data[..]), bs[..k] + bs[k + 1..])
  {
    ghost var d := data[..];
    SplicePieces(d, bs, k);
    ShiftDown(data, start, next, d, |Flat(bs)| - 1);
    ImageWithout(d, bs, k, data[..]);
  }

  /** Behind entry `k` the first double NUL ends the image. */
  lemma {:induction false} SplicePieces(d: seq<char>, bs: seq<Binding>, k: nat)
    requires Represents(d, bs) && k + 1 < |bs|
    ensures Start(bs, k) < Start(bs, k + 1) < |Flat(bs)| < |d|
    ensures forall j | Start(bs, k + 1) <= j <= |Flat(bs)| - 1 :: DoubleAt(d, j) <==> j == |Flat(bs)| - 1
  {
    EntryAt(d, bs, k);
    EntryAt(d, bs, k + 1);
    DoubleNulOnce(d, bs);
  }

  lemma DeletePieces(d: seq<char>, bs: seq<Binding>, k: nat)
    requires Represents(d, bs) && UniqueNames(bs) && k < |bs|
    ensures Start(bs, k) < Start(bs, k + 1) < |d| && (d[Start(bs, k + 1)] == NUL <==> k + 1 == |bs|)
    ensures AllLegal(bs[..k] + bs[k + 1..]) && UniqueNames(bs[..k] + bs[k + 1..])
  {
    EntryAt(d, bs, k);
    StartIsNul(d, bs, k + 1);
    AllLegalSplice(bs, k);
    UniqueSplice(bs, k);
  }

  lemma AllLegalSplice(bs: seq<Binding>, k: nat)
    requires AllLegal(bs) && k < |bs|
    ensures AllLegal(bs[..k] + bs[k + 1..])
  {
  }

  lemma UniqueSplice(bs: seq<Binding>, k: nat)
    requires UniqueNames(bs) && k < |bs|
    ensures UniqueNames(bs[..k] + bs[k + 1..])
  {
  }

  /** Where the next entry goes: over the closing NUL, or at 0 in an empty environment. */
  method FindEnd(data: array<char>, ghost bs: seq<Binding>) returns (env: nat)
    requires Represents(data[..], bs)
    ensures env == |Flat(bs)| < data.Length && data[..env] == Flat(bs)
  {
    ghost var d := data[..];
    DoubleNulOnce(d, bs);
    env := 0;
    while data[env] != NUL || data[env + 1] != NUL
      invariant env <= |Image(bs)| - 2
      decreases |Image(bs)| - env
    {
      assert !DoubleAt(d, env);
      env := env + 1;
    }
    assert DoubleAt(d, env);
    assert d[..|Image(bs)|] == Image(bs);
    if env > 0 { env := env + 1; }
  }

  /** strcpy: the string and its NUL. */
  method CopyString(data: array<char>, at: nat, s: string) returns (end: nat)
    requires NUL !in s && at + |s| < data.Length
    modifies data
    ensures end == at + |s| && data[..end] == old(data[..at]) + s && data[end] == NUL
    ensures forall j | end < j < data.Length :: data[j] == old(data[j])
  {
    var i := 0;
    while i < |s|
      invariant i <= |s| && data[..at + i] == old(data[..at]) + s[..i]
      invariant forall j | at + i <= j < data.Length :: data[j] == old(data[j])
    {
      data[at + i] := s[i];
      i := i + 1;
    }
    data[at + i] := NUL;
    end := at + i;
  }

  lemma {:induction false} JoinSnoc(words: seq<string>, w: string)
    requires words != []
    ensures Join(words + [w]) == Join(words) + " " + w
  {
  }

  /** strlen of an entry with both closing NULs, summed word by word. */
  method EntryLength(name: string, words: seq<string>) returns (len: nat)
    requires words != []
    ensures len == |name| + 1 + |Join(words)| + 2
  {
    len := |name| + 2;
    var i := 0;
    while i < |words|
      invariant i <= |words|
      invariant len == |name| + 2 + if i == 0 then 0 else |Join(words[..i])| + 1
    {
      assert words[..i + 1] == words[..i] + [words[i]];
      if i > 0 { JoinSnoc(words[..i], words[i]); }
      len := len + |words[i]| + 1;
      i := i + 1;
    }
    assert words[..i] == words;
  }

  /** What has been written after the name and the first `i` words. */
  ghost function Written(name: string, words: seq<string>, i: nat): string
    requires i <= |words|
  {
    if i == 0 then name else Text(Binding(name, Join(words[..i])))
  }

  function Separator(i: nat): char {
    if i == 0 then '=' else ' '
  }

  lemma WrittenStep(before: string, name: string, words: seq<string>, i: nat)
    requires i < |words|
    ensures before + Written(name, words, i + 1) == before + Written(name, words, i) + ([Separator(i)] + words[i])
    ensures |Written(name, words, i + 1)| == |Written(name, words, i)| + 1 + |words[i]|
    ensures |Written(name, words, i + 1)| <= |name| + 1 + |Join(words)|
  {
    JoinPrefixFits(words, i + 1);
    WrittenNext(name, words, i);
    var a, b := Written(name, words, i), [Separator(i)] + words[i];
    assert before + (a + b) == before + a + b;
  }

  lemma WrittenNext(name: string, words: seq<string>, i: nat)
    requires i < |words|
    ensures Written(name, words, i + 1) == Written(name, words, i) + ([Separator(i)] + words[i])
  {
    assert words[..i + 1] == words[..i] + [words[i]];
    if i > 0 {
      JoinSnoc(words[..i], words[i]);
      Assoc(Join(words[..i]), " ", words[i]);
      Assoc(name + "=", Join(words[..i]), " " + words[i]);
    } else {
      Assoc(name, "=", words[0]);
      assert words[..1] == [words[0]];
    }
  }

  lemma Assoc(a: string, b: string, c: string)
    ensures a + b + c == a + (b + c)
  {
  }

  /** A separator and a word. */
  method CopyWord(data: array<char>, at: nat, sep: char, w: string) returns (end: nat)
    requires NUL !in w && at + 1 + |w| < data.Length
    modifies data
    ensures end == at + 1 + |w| && data[..end] == old(data[..at]) + ([sep] + w) && data[end] == NUL
    ensures forall j | end < j < data.Length :: data[j] == old(data[j])
  {
    ghost var before := data[..at];
    data[at] := sep;
    assert data[..at + 1] == before + [sep];
    end := CopyString(data, at + 1, w);
  }

  /** Write "name=word word ..." at `at`, closed by two NULs. */
  method WriteEntry(data: array<char>, at: nat, name: string, words: seq<string>)
    requires words != [] && NUL !in name && forall i | 0 <= i < |words| :: NUL !in words[i]
    requires at + |name| + 1 + |Join(words)| + 2 <= data.Length
    modifies data
    ensures data[..at + |name| + 1 + |Join(words)| + 2]
         == old(data[..at]) + Text(Binding(name, Join(words))) + [NUL, NUL]
    ensures forall j | at + |name| + 1 + |Join(words)| + 2 <= j < data.Length :: data[j] == old(data[j])
  {
    ghost var before := data[..at];
    var env := CopyString(data, at, name);
    var i := 0;
    while i < |words|
      invariant i <= |words|
      invariant env == at + |Written(name, words, i)| && env + 1 < data.Length && data[env] == NUL
      invariant data[..env] == before + Written(name, words, i)
      invariant forall j | env < j < data.Length :: data[j] == old(data[j])
    {
      WrittenStep(before, name, words, i);
      env := CopyWord(data, env, Separator(i), words[i]);
      i := i + 1;
    }
    assert words[..i] == words;
    CloseEntry(data, env);
  }

  /** The second NUL. */
  method CloseEntry(data: array<char>, env: nat)
    requires env + 1 < data.Length && data[env] == NUL
    modifies data
    ensures data[..env + 2] == old(data[..env]) + [NUL, NUL]
    ensures forall j | env + 2 <= j < data.Length :: data[j] == old(data[j])
  {
    data[env + 1] := NUL;
  }

  lemma {:induction false} JoinPrefixFits(words: seq<string>, i: nat)
    requires 0 < i <= |words|
    ensures |Join(words[..i])| <= |Join(words)|
    decreases |words|
  {
    if i < |words| {
      assert words == words[..|words| - 1] + [words[|words| - 1]];
      assert words[..|words| - 1][..i] == words[..i];
      JoinPrefixFits(words[..|words| - 1], i);
    } else {
      assert words[..i] == words;
    }
  }

  lemma {:induction false} ImageWithNew(bs: seq<Binding>, b: Binding)
    ensures Image(bs + [b]) == Flat(bs) + Text(b) + [NUL, NUL]
  {
    FlatAppend(bs, [b]);
    assert Flat([b]) == Text(b) + [NUL];
  }

  /** Writing an image and then one with an entry more is writing the latter. */
  lemma OverAppended(d: seq<char>, bs: seq<Binding>, b: Binding, bs': seq<Binding>)
    requires |Image(bs)| <= |d| && |Image(bs')| <= |d| && (bs' == bs + [] || bs' == bs + [b])
    ensures Over(Over(d, bs), bs') == Over(d, bs')
  {
    ImageWithNew(bs, b);
    assert bs + [] == bs;
    OverOver(d, bs, bs');
  }

  /** strcmp against the string stored at `at`. */
  method SameString(data: array<char>, at: nat, s: string, ghost text: string) returns (same: bool)
    requires Holds(data, at, text)
    ensures same <==> s == text
  {
    var i := 0;
    while i < |s| && data[at + i] == s[i] && s[i] != NUL
      invariant i <= |s| && i <= |text| && s[..i] == text[..i]
      invariant i < |text| ==> data[at + i] == text[i] != NUL
    {
      i := i + 1;
    }
    same := i == |s| && data[at + i] == NUL;
    if same { assert s == s[..i] && text == text[..i]; }
  }

  class Store {
    const data: array<char>
    ghost var bindings: seq<Binding>

    ghost predicate Valid()
      reads this, data
    {
      Represents(data[..], bindings) && UniqueNames(bindings)
    }

    /** An erased environment area. */
    constructor (size: nat)
      requires size >= 2
      ensures Valid() && bindings == [] && data.Length == size && fresh(data)
    {
      data := new char[size](_ => NUL);
      bindings := [];
    }

    /** Find the entry named by `s`: its index in the list and its address; or the end of the list. */
    method Search(s: string) returns (env: nat, nxt: nat, val: int, ghost k: nat)
      requires Valid() && NUL !in s
      ensures k == IndexOf(bindings, KeyOf(s)) && env == Start(bindings, k)
      ensures val == -1 <==> k == |bindings|
      ensures val != -1 ==> nxt == env + |Text(bindings[k])|
                            && val == env + |bindings[k].name| + 1 && Holds(data, val, bindings[k].value)
    {
      env, nxt, val, k := 0, 0, -1, 0;
      AtNul(data, bindings, 0);
      while data[env] != NUL
        invariant k <= |bindings| && env == Start(bindings, k) < data.Length
        invariant data[env] == NUL <==> k == |bindings|
        invariant val == -1 && forall j | 0 <= j < k :: bindings[j].name != KeyOf(s)
        decreases |bindings| - k
      {
        nxt, val := TryEntry(s, env, k);
        if val >= 0 {
          return;
        }
        env, k := nxt + 1, k + 1;
      }
    }

    /** One entry of the search: where it ends, and where its value is if the name matches. */
    method TryEntry(s: string, env: nat, ghost k: nat) returns (nxt: nat, val: int)
      requires Valid() && NUL !in s && k < |bindings| && env == Start(bindings, k)
      ensures nxt == env + |Text(bindings[k])|
      ensures nxt + 1 == Start(bindings, k + 1) < data.Length
      ensures data[nxt + 1] == NUL <==> k + 1 == |bindings|
      ensures KeyOf(s) == bindings[k].name ==> val == env + |bindings[k].name| + 1 && Holds(data, val, bindings[k].value)
      ensures KeyOf(s) != bindings[k].name ==> val == -1
    {
      EntryFacts(data, bindings, k);
      nxt := StringEnd(data, env, Text(bindings[k]));
      val := EnvMatch(data, s, env, bindings[k]);
    }

    /** Address of the value of `s`, or nothing. */
    method GetEnv(s: string) returns (r: Option<nat>)
      requires Valid() && NUL !in s
      ensures r.None? <==> Lookup(bindings, KeyOf(s)) == None
      ensures r.Some? ==> Holds(data, r.value, Lookup(bindings, KeyOf(s)).value)
      ensures r.Some? ==> r.value == ValueAt(bindings, KeyOf(s))
    {
      ghost var k;
      var env, nxt, val;
      env, nxt, val, k := Search(s);
      if val == -1 { return None; }
      return Some(val);
    }

    /** Remove entry `k`, which occupies [start, end] with its NUL, by moving the rest down. */
    method Delete(start: nat, end: nat, ghost k: nat)
      requires Valid() && k < |bindings| && start == Start(bindings, k) && end == Start(bindings, k + 1) - 1
      modifies this`bindings, data
      ensures Valid() && bindings == old(bindings)[..k] + old(bindings)[k + 1..]
      ensures data[..] == Over(old(data[..]), bindings)
    {
      ghost var bs := bindings;
      DeletePieces(data[..], bs, k);
      bindings := bs[..k] + bs[k + 1..];
      if data[end + 1] == NUL {
        assert bindings == bs[..|bs| - 1];
        DropLast(data, start, bs);
      } else {
        Splice(data, start, end + 1, bs, k);
      }
    }

    /** setenv; `rc` is its return code. */
    method SetEnv(cfg: Config, q: Request) returns (rc: int)
      requires Valid() && LegalRequest(q)
      modifies this`bindings, data
      ensures Valid()
      ensures bindings == After(cfg, data.Length, old(bindings), q)
      ensures data[..] == Over(old(data[..]), bindings)
      ensures rc == if Fails(cfg, data.Length, old(bindings), q) then 1 else 0
    {
      var refused := Clear(cfg, q);
      if refused { return 1; }
      LookupOthers(old(bindings), q.name, q.name);
      if q.words == [] { return 0; }
      ghost var rest := bindings;
      rc := Append(q.name, q.words);
      OverAppended(old(data[..]), rest, Binding(q.name, Join(q.words)), bindings);
    }

    /** The checks, and the removal of the definition that is being replaced. */
    method Clear(cfg: Config, q: Request) returns (refused: bool)
      requires Valid() && LegalRequest(q)
      modifies this`bindings, data
      ensures Valid()
      ensures refused <==> Refused(cfg, old(bindings), q)
      ensures bindings == if refused then old(bindings) else Others(old(bindings), q.name)
      ensures data[..] == Over(old(data[..]), bindings)
    {
      OverSame(data[..], bindings);
      if '=' in q.name { return true; }
      ghost var k;
      var env, nxt, val;
      env, nxt, val, k := Locate(q.name);
      if val == -1 { return false; }
      refused := DeleteAllowed(cfg, q, env, nxt, val, k);
    }

    /** Find the definition of `name`. */
    method Locate(name: string) returns (env: nat, nxt: nat, val: int, ghost k: nat)
      requires Valid() && NUL !in name && '=' !in name
      ensures val == -1 ==> Lookup(bindings, name) == None && Others(bindings, name) == bindings
      ensures val != -1 ==>
                && 0 <= val && k < |bindings| && k == IndexOf(bindings, name) && env == Start(bindings, k)
                && nxt == env + |Text(bindings[k])| && Holds(data, val, bindings[k].value)
                && Others(bindings, name) == bindings[..k] + bindings[k + 1..]
                && Lookup(bindings, name) == Some(bindings[k].value)
    {
      KeyIsWhole(name);
      OthersSplices(bindings, name);
      env, nxt, val, k := Search(name);
    }

    /** Delete the definition found at entry `k`, unless it is protected. */
    method DeleteAllowed(cfg: Config, q: Request, env: nat, nxt: nat, val: nat, ghost k: nat) returns (refused: bool)
      requires Valid() && k < |bindings| && k == IndexOf(bindings, q.name) && env == Start(bindings, k)
      requires nxt == env + |Text(bindings[k])| && Holds(data, val, bindings[k].value)
      modifies this`bindings, data
      ensures Valid()
      ensures refused <==> WriteProtected(cfg, q.name, old(bindings[k].value)) || HookRejects(q)
      ensures bindings == if refused then old(bindings) else old(bindings)[..k] + old(bindings)[k + 1..]
      ensures data[..] == Over(old(data[..]), bindings)
    {
      OverSame(data[..], bindings);
      refused := Denied(cfg, q, val, k);
      if !refused {
        FlatAround(bindings, k);
        Delete(env, nxt, k);
      }
    }

    /** May the definition stored at `val` not be replaced? */
    method Denied(cfg: Config, q: Request, val: nat, ghost k: nat) returns (denied: bool)
      requires Valid() && k < |bindings| && k == IndexOf(bindings, q.name)
      requires Holds(data, val, bindings[k].value)
      ensures denied <==> WriteProtected(cfg, q.name, bindings[k].value) || HookRejects(q)
    {
      denied := IsProtected(cfg, q.name, val, k);
      if denied { return; }
      if IsConsole(q.name) {
        if q.words == [] { return true; }
        if !q.hooksAccept { return true; }
      }
      return q.name == "baudrate" && !q.hooksAccept;
    }

    /** Does the vendor protection cover the value stored at `val`? */
    method IsProtected(cfg: Config, name: string, val: nat, ghost k: nat) returns (p: bool)
      requires Valid() && k < |bindings| && k == IndexOf(bindings, name)
      requires Holds(data, val, bindings[k].value)
      ensures p <==> WriteProtected(cfg, name, bindings[k].value)
    {
      if cfg.overwrite { return false; }
      if name == "serial#" { return true; }
      if name != "ethaddr" { return false; }
      if cfg.ethaddrOnce.None? { return true; }
      var same := SameString(data, val, cfg.ethaddrOnce.value, bindings[k].value);
      return !same;
    }

    /** Add the definition at the end, or report an overflow. */
    method Append(name: string, words: seq<string>) returns (rc: int)
      requires Valid() && words != []
      requires NUL !in name && '=' !in name && forall i | 0 <= i < |words| :: NUL !in words[i]
      requires Lookup(bindings, name) == None
      modifies this`bindings, data
      ensures Valid()
      ensures rc == 1 <==> |Image(old(bindings) + [Binding(name, Join(words))])| > data.Length
      ensures rc == 0 || rc == 1
      ensures bindings == old(bindings) + if rc == 0 then [Binding(name, Join(words))] else []
      ensures data[..] == Over(old(data[..]), bindings)
    {
      ghost var d, bs, b := data[..], bindings, Binding(name, Join(words));
      OverSame(d, bs);
      ImageWithNew(bs, b);
      JoinNoNul(words);
      var env := FindEnd(data, bs);
      var len := EntryLength(name, words);
      if len > data.Length - env { return 1; }
      WriteEntry(data, env, name, words);
      ghost var n := |Image(bs + [b])|;
      assert Image(bs + [b]) == data[..n] && data[n..] == d[n..];
      assert data[..] == data[..n] + data[n..];
      bindings := bs + [b];
      return 0;
    }
  }
}
