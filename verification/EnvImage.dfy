/** The flat environment image: how an ordered list of bindings is laid out as
    NUL-terminated "name=value" strings, closed by an extra NUL. */
module EnvImage {

  const NUL: char := '\0'

  datatype Binding = Binding(name: string, value: string)

  /** The text of one entry, as it is stored and as "printenv" shows it. */
  function Text(b: Binding): string {
    b.name + "=" + b.value
  }

  predicate Legal(b: Binding) {
    '=' !in b.name && NUL !in b.name && NUL !in b.value
  }

  ghost predicate AllLegal(bs: seq<Binding>) {
    forall i | 0 <= i < |bs| :: Legal(bs[i])
  }

  ghost predicate UniqueNames(bs: seq<Binding>) {
    forall i, j | 0 <= i < j < |bs| :: bs[i].name != bs[j].name
  }

  /** All entries, each with its terminating NUL. */
  ghost function Flat(bs: seq<Binding>): string {
    if bs == [] then [] else Text(bs[0]) + [NUL] + Flat(bs[1..])
  }

  /** The whole image. The empty environment is two NULs, not one. */
  ghost function Image(bs: seq<Binding>): string {
    if bs == [] then [NUL, NUL] else Flat(bs) + [NUL]
  }

  /** `data` holds `bs`; whatever follows the image is of no interest. */
  ghost predicate Represents(data: seq<char>, bs: seq<Binding>) {
    AllLegal(bs) && Image(bs) <= data
  }

  /** The array `d` with the image of `bs` written over its beginning; what lies behind stays. */
  ghost function Over(d: seq<char>, bs: seq<Binding>): (d': seq<char>)
    requires |Image(bs)| <= |d|
    ensures |d'| == |d| && Image(bs) <= d'
  {
    Image(bs) + d[|Image(bs)|..]
  }

  lemma OverSame(d: seq<char>, bs: seq<Binding>)
    requires Image(bs) <= d
    ensures Over(d, bs) == d
  {
  }

  /** A longer image hides a shorter one below it. */
  lemma OverOver(d: seq<char>, a: seq<Binding>, b: seq<Binding>)
    requires |Image(a)| <= |Image(b)| <= |d|
    ensures Over(Over(d, a), b) == Over(d, b)
  {
  }

  /** Where entry `k` starts (and, for `k == |bs|`, where the closing NUL is). */
  ghost function Start(bs: seq<Binding>, k: nat): nat
    requires k <= |bs|
  {
    |Flat(bs[..k])|
  }

  lemma {:induction false} FlatAppend(a: seq<Binding>, b: seq<Binding>)
    ensures Flat(a + b) == Flat(a) + Flat(b)
  {
    if a == [] {
      assert a + b == b;
    } else {
      assert (a + b)[1..] == a[1..] + b;
      FlatAppend(a[1..], b);
    }
  }

  lemma {:induction false} FlatAround(bs: seq<Binding>, k: nat)
    requires k < |bs|
    ensures Flat(bs) == Flat(bs[..k]) + (Text(bs[k]) + [NUL]) + Flat(bs[k + 1..])
    ensures Start(bs, k + 1) == Start(bs, k) + |Text(bs[k])| + 1
  {
    assert Flat([bs[k]]) == Text(bs[k]) + [NUL];
    assert bs[..k + 1] == bs[..k] + [bs[k]];
    FlatAppend(bs[..k], [bs[k]]);
    assert bs == bs[..k + 1] + bs[k + 1..];
    FlatAppend(bs[..k + 1], bs[k + 1..]);
  }

  /** Entry `k` sits at `Start(bs, k)`, is followed by a NUL, and then comes the next one. */
  lemma {:induction false} EntryAt(data: seq<char>, bs: seq<Binding>, k: nat)
    requires Represents(data, bs) && k < |bs|
    ensures Start(bs, k + 1) == Start(bs, k) + |Text(bs[k])| + 1 <= |Flat(bs)| < |Image(bs)| <= |data|
    ensures data[Start(bs, k)..Start(bs, k + 1) - 1] == Text(bs[k])
    ensures data[Start(bs, k + 1) - 1] == NUL
  {
    FlatAround(bs, k);
    MiddleOf(data, Flat(bs[..k]), Text(bs[k]), Flat(bs[k + 1..]));
  }

  lemma MiddleOf(data: seq<char>, a: string, b: string, c: string)
    requires a + (b + [NUL]) + c + [NUL] <= data
    ensures |a| + |b| < |data| && data[|a|..|a| + |b|] == b && data[|a| + |b|] == NUL
  {
    var s := a + (b + [NUL]) + c + [NUL];
    assert s[|a|..|a| + |b|] == b && s[|a| + |b|] == NUL;
  }

  /** After the last entry, and only there, an entry start holds a NUL. */
  lemma StartIsNul(data: seq<char>, bs: seq<Binding>, k: nat)
    requires Represents(data, bs) && k <= |bs|
    ensures Start(bs, k) < |data|
    ensures data[Start(bs, k)] == NUL <==> k == |bs|
  {
    if k < |bs| {
      EntryAt(data, bs, k);
      assert data[Start(bs, k)] == Text(bs[k])[0];
    } else {
      assert bs[..k] == bs;
      assert data[|Flat(bs)|] == Image(bs)[|Flat(bs)|];
    }
  }

  /** Inside an entry there is no NUL. */
  lemma InsideEntry(data: seq<char>, bs: seq<Binding>, k: nat, j: nat)
    requires Represents(data, bs) && k < |bs|
    requires Start(bs, k) <= j < Start(bs, k) + |Text(bs[k])|
    ensures j < |data| && data[j] == Text(bs[k])[j - Start(bs, k)] != NUL
  {
    EntryAt(data, bs, k);
    var at := Start(bs, k);
    assert data[j] == data[at..at + |Text(bs[k])|][j - at];
    NoNulInside(bs[k], j - at);
  }

  lemma NoNulInside(b: Binding, i: nat)
    requires Legal(b) && i < |Text(b)|
    ensures Text(b)[i] != NUL
  {
  }

  /** Two NULs in a row occur in the image only at its very end. */
  lemma {:induction false} DoubleNul(bs: seq<Binding>, j: nat)
    requires AllLegal(bs) && bs != [] && j + 1 <= |Flat(bs)|
    ensures (Flat(bs) + [NUL])[j] == NUL == (Flat(bs) + [NUL])[j + 1] <==> j == |Flat(bs)| - 1
    decreases |bs|
  {
    var t := |Text(bs[0])|;
    assert Flat(bs) == Text(bs[0]) + [NUL] + Flat(bs[1..]);
    if j < t {
      assert Flat(bs)[j] == Text(bs[0])[j];
    } else if |bs| == 1 {
    } else if j == t {
      assert Flat(bs)[t + 1] == Flat(bs[1..])[0] == Text(bs[1])[0];
    } else {
      DoubleNul(bs[1..], j - t - 1);
      assert (Flat(bs) + [NUL])[j] == (Flat(bs[1..]) + [NUL])[j - t - 1];
      assert (Flat(bs) + [NUL])[j + 1] == (Flat(bs[1..]) + [NUL])[j - t];
    }
  }

  /** The first double NUL of an image: at 0 when it is empty, else just before its last character. */
  lemma FirstDoubleNul(data: seq<char>, bs: seq<Binding>, j: nat)
    requires Represents(data, bs) && j < |Image(bs)| - 1
    ensures data[j] == NUL == data[j + 1] <==> j == |Image(bs)| - 2
  {
    assert data[j] == Image(bs)[j] && data[j + 1] == Image(bs)[j + 1];
    if bs != [] { DoubleNul(bs, j); }
  }

  /** The image determines the bindings: no byte array can be read as two different environments. */
  lemma {:induction false} ImageInjective(data: seq<char>, a: seq<Binding>, b: seq<Binding>)
    requires Represents(data, a) && Represents(data, b)
    ensures a == b
    decreases |a|
  {
    StartIsNul(data, a, 0);
    StartIsNul(data, b, 0);
    if a != [] {
      SameFirst(data, a, b);
      SameStart(data, a, b);
      assert a == [a[0]] + a[1..] && b == [b[0]] + b[1..];
      if |a| > 1 {
        RepresentsTail(data, a);
        RepresentsTail(data, b);
        ImageInjective(data[Start(a, 1)..], a[1..], b[1..]);
      }
    }
  }

  lemma SameStart(data: seq<char>, a: seq<Binding>, b: seq<Binding>)
    requires Represents(data, a) && Represents(data, b) && a != [] && b != [] && a[0] == b[0]
    ensures Start(a, 1) == Start(b, 1) <= |data| && (|a| > 1 <==> |b| > 1)
  {
    assert a[..1] == b[..1];
    StartIsNul(data, a, 1);
    StartIsNul(data, b, 1);
  }

  lemma RepresentsTail(data: seq<char>, bs: seq<Binding>)
    requires Represents(data, bs) && |bs| > 1 && Start(bs, 1) <= |data|
    ensures Represents(data[Start(bs, 1)..], bs[1..])
  {
    var a, c := Text(bs[0]) + [NUL], Flat(bs[1..]);
    assert bs[..0] == [] && bs[..1] == [bs[0]];
    FlatAround(bs, 0);
    TailOf(data, a, c);
  }

  lemma TailOf(data: seq<char>, a: string, c: string)
    requires a + c + [NUL] <= data
    ensures c + [NUL] <= data[|a|..]
  {
    var s := a + c + [NUL];
    assert s[|a|..] == c + [NUL] && data[|a|..][..|c| + 1] == data[..|s|][|a|..];
  }

  lemma SameFirst(data: seq<char>, a: seq<Binding>, b: seq<Binding>)
    requires Represents(data, a) && Represents(data, b) && a != [] && b != []
    ensures a[0] == b[0]
  {
    EntryAt(data, a, 0);
    EntryAt(data, b, 0);
    var ta, tb := Text(a[0]), Text(b[0]);
    if |ta| < |tb| {
      InsideEntry(data, b, 0, |ta|);
    } else if |tb| < |ta| {
      InsideEntry(data, a, 0, |tb|);
    }
    assert ta == data[..|ta|] == tb;
    TextInjective(a[0], b[0]);
  }

  lemma TextInjective(a: Binding, b: Binding)
    requires Legal(a) && Legal(b) && Text(a) == Text(b)
    ensures a == b
  {
    assert Text(a)[|a.name|] == '=' == Text(b)[|b.name|];
    assert a.name == Text(a)[..|a.name|] == b.name;
    assert a.value == Text(a)[|a.name| + 1..] == b.value;
  }
}
