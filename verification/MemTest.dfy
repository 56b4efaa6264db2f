/** The alternate memory test over an arbitrary address decoder: word offset `i` of the
    region is stored in cell `decoder[i]`, and cells keep what is written to them. */
module MemTest {
  import opened Machine

  const PATTERN: nat := 0xaaaa_aaaa
  const ANTI_PATTERN: nat := 0x5555_5555

  /** One's complement of a 32-bit word. */
  function Not(w: nat): nat
    requires w < WORD
  {
    WORD - 1 - w
  }

  /** The region is wired: every offset leads to some cell. */
  ghost predicate Wired(decoder: seq<nat>, cells: array<nat>) {
    forall i | 0 <= i < |decoder| :: decoder[i] < cells.Length
  }

  /** The offsets the walking-address test looks at: 0 and the powers of two below `len`. */
  ghost predicate Walked(offset: nat, len: nat) {
    offset == 0 || (offset < len && exists i: nat :: offset == Pow2(i))
  }

  ghost predicate InjectiveOnWalk(decoder: seq<nat>, len: nat)
    requires len < |decoder|
  {
    forall a: nat, b: nat | Walked(a, len) && Walked(b, len) && a < b && b < |decoder| :: decoder[a] != decoder[b]
  }

  ghost predicate Injective(decoder: seq<nat>, n: nat)
    requires n <= |decoder|
  {
    forall a, b | 0 <= a < b < n :: decoder[a] != decoder[b]
  }

  lemma {:induction false} Pow2Mono(i: nat, j: nat)
    ensures Pow2(i) > 0 && (i < j ==> Pow2(i) < Pow2(j))
    decreases i + j
  {
    if i > 0 { Pow2Mono(i - 1, 0); }
    if i < j {
      Pow2Mono(j - 1, 0);
      if i < j - 1 { Pow2Mono(i, j - 1); }
    }
  }

  // ------------------------------------------------------- walking address

  /** A loop over the powers of two below `len`: write `w` to each. */
  method WriteWalk(decoder: seq<nat>, cells: array<nat>, len: nat, w: nat)
    requires Wired(decoder, cells) && len < |decoder|
    modifies cells
    ensures forall i: nat | Pow2(i) < len :: cells[decoder[Pow2(i)]] == w
  {
    var offset := 1;
    ghost var k := 0;
    while offset < len
      invariant offset == Pow2(k)
      invariant forall i: nat | i < k && Pow2(i) < len :: cells[decoder[Pow2(i)]] == w
      decreases len - offset
    {
      Pow2Mono(k, 0);
      cells[decoder[offset]] := w;
      offset := offset * 2;
      k := k + 1;
    }
    forall i: nat | Pow2(i) < len ensures i < k { Pow2Mono(k, i); }
  }

  /** The same loop, reading: is `w` in all of them, the one at `except` left out? */
  method CheckWalk(decoder: seq<nat>, cells: array<nat>, len: nat, w: nat, except: nat) returns (ok: bool)
    requires Wired(decoder, cells) && len < |decoder|
    ensures ok <==> forall i: nat | Pow2(i) < len && Pow2(i) != except :: cells[decoder[Pow2(i)]] == w
  {
    var offset := 1;
    ghost var k := 0;
    while offset < len
      invariant offset == Pow2(k)
      invariant forall i: nat | i < k && Pow2(i) < len && Pow2(i) != except :: cells[decoder[Pow2(i)]] == w
      decreases len - offset
    {
      Pow2Mono(k, 0);
      var temp := cells[decoder[offset]];
      if temp != w && offset != except { return false; }
      offset := offset * 2;
      k := k + 1;
    }
    forall i: nat | Pow2(i) < len ensures i < k { Pow2Mono(k, i); }
    return true;
  }

  /** No power of two leads to the cell of offset 0. */
  ghost predicate ZeroIsApart(decoder: seq<nat>, len: nat)
    requires len < |decoder|
  {
    forall i: nat | Pow2(i) < len :: decoder[Pow2(i)] != decoder[0]
  }

  /** The first `k` powers of two lead to cells of their own. */
  ghost predicate PowersApart(decoder: seq<nat>, len: nat, k: nat)
    requires len < |decoder|
  {
    forall i: nat, j: nat | i < k && Pow2(i) < len && Pow2(j) < len && i != j :: decoder[Pow2(i)] != decoder[Pow2(j)]
  }

  /** Address bits stuck high: offset 0 must not overwrite any of the others. */
  method StuckHighTest(decoder: seq<nat>, cells: array<nat>, len: nat) returns (ok: bool)
    requires Wired(decoder, cells) && len < |decoder|
    modifies cells
    ensures !ok ==> !InjectiveOnWalk(decoder, len)
    ensures ok ==> ZeroIsApart(decoder, len) && forall i: nat | Pow2(i) < len :: cells[decoder[Pow2(i)]] == PATTERN
  {
    WriteWalk(decoder, cells, len, PATTERN);
    ghost var before := cells[..];
    cells[decoder[0]] := ANTI_PATTERN;
    ok := CheckWalk(decoder, cells, len, PATTERN, 0);
    if !ok {
      StuckHighFound(decoder, cells, before, len);
      return;
    }
    assert ZeroIsApart(decoder, len) by { Pow2Positive(); }
    cells[decoder[0]] := PATTERN;
  }

  /** Address bits stuck low or shorted: no power of two may overwrite another. */
  method StuckLowTest(decoder: seq<nat>, cells: array<nat>, len: nat) returns (ok: bool)
    requires Wired(decoder, cells) && len < |decoder|
    requires forall i: nat | Pow2(i) < len :: cells[decoder[Pow2(i)]] == PATTERN
    modifies cells
    ensures !ok ==> !InjectiveOnWalk(decoder, len)
    ensures ok ==> forall k: nat :: PowersApart(decoder, len, k)
  {
    var test := 1;
    ghost var k: nat := 0;
    while test < len
      invariant test == Pow2(k)
      invariant forall i: nat | Pow2(i) < len :: cells[decoder[Pow2(i)]] == PATTERN
      invariant PowersApart(decoder, len, k)
      decreases len - test
    {
      Pow2Mono(k, 0);
      ghost var before := cells[..];
      cells[decoder[test]] := ANTI_PATTERN;
      ok := CheckWalk(decoder, cells, len, PATTERN, test);
      if !ok {
        AliasFound(decoder, cells, before, len, k);
        return;
      }
      NoAlias(decoder, cells, len, k);
      cells[decoder[test]] := PATTERN;
      test := test * 2;
      k := k + 1;
    }
    forall i: nat | Pow2(i) < len ensures i < k { Pow2Mono(k, i); }
    ok := true;
  }

  /** The address-line phase passes exactly when offset 0 and the powers of two have cells of their own. */
  method AddressLineTest(decoder: seq<nat>, cells: array<nat>, len: nat) returns (ok: bool)
    requires Wired(decoder, cells) && len < |decoder|
    modifies cells
    ensures ok <==> InjectiveOnWalk(decoder, len)
  {
    ok := StuckHighTest(decoder, cells, len);
    if ok {
      ok := StuckLowTest(decoder, cells, len);
      if ok { WalkIsInjective(decoder, len); }
    }
  }

  lemma Pow2Positive()
    ensures forall i: nat :: Pow2(i) > 0
  {
  }

  lemma StuckHighFound(decoder: seq<nat>, cells: array<nat>, before: seq<nat>, len: nat)
    requires Wired(decoder, cells) && len < |decoder| && |before| == cells.Length
    requires forall i: nat | Pow2(i) < len :: before[decoder[Pow2(i)]] == PATTERN
    requires cells[..] == before[decoder[0] := ANTI_PATTERN]
    requires !forall i: nat | Pow2(i) < len && Pow2(i) != 0 :: cells[decoder[Pow2(i)]] == PATTERN
    ensures !InjectiveOnWalk(decoder, len)
  {
  }

  lemma {:induction false} AliasFound(decoder: seq<nat>, cells: array<nat>, before: seq<nat>, len: nat, k: nat)
    requires Wired(decoder, cells) && len < |decoder| && |before| == cells.Length && Pow2(k) < len
    requires forall i: nat | Pow2(i) < len :: before[decoder[Pow2(i)]] == PATTERN
    requires cells[..] == before[decoder[Pow2(k)] := ANTI_PATTERN]
    requires !forall i: nat | Pow2(i) < len && Pow2(i) != Pow2(k) :: cells[decoder[Pow2(i)]] == PATTERN
    ensures !InjectiveOnWalk(decoder, len)
  {
  }

  lemma {:induction false} NoAlias(decoder: seq<nat>, cells: array<nat>, len: nat, k: nat)
    requires Wired(decoder, cells) && len < |decoder| && Pow2(k) < len
    requires cells[decoder[Pow2(k)]] == ANTI_PATTERN
    requires forall i: nat | Pow2(i) < len && Pow2(i) != Pow2(k) :: cells[decoder[Pow2(i)]] == PATTERN
    ensures forall j: nat | Pow2(j) < len && j != k :: decoder[Pow2(k)] != decoder[Pow2(j)]
  {
    forall j: nat | Pow2(j) < len && j != k ensures decoder[Pow2(k)] != decoder[Pow2(j)] {
      Pow2Mono(j, k);
      Pow2Mono(k, j);
    }
  }

  lemma WalkIsInjective(decoder: seq<nat>, len: nat)
    requires len < |decoder|
    requires ZeroIsApart(decoder, len) && forall k: nat :: PowersApart(decoder, len, k)
    ensures InjectiveOnWalk(decoder, len)
  {
    forall a: nat, b: nat | Walked(a, len) && Walked(b, len) && a < b && b < |decoder|
      ensures decoder[a] != decoder[b]
    {
      var j: nat :| b == Pow2(j);
      if a > 0 {
        var i: nat :| a == Pow2(i);
        assert PowersApart(decoder, len, i + 1);
      }
    }
  }

  // ----------------------------------------------------- fill, invert, verify

  /** Fill the region, check and invert it, check and clear it: true if nothing is found. */
  method FillTest(decoder: seq<nat>, cells: array<nat>) returns (ok: bool)
    requires Wired(decoder, cells) && |decoder| < WORD - 1
    modifies cells
    ensures ok <==> Injective(decoder, |decoder|)
    ensures ok ==> forall i | 0 <= i < |decoder| :: cells[decoder[i]] == 0
  {
    Fill(decoder, cells);
    ok := CheckAndInvert(decoder, cells);
    if ok { ok := CheckAndClear(decoder, cells); }
  }

  /** Every offset gets its own number; a cell keeps the last one. */
  method Fill(decoder: seq<nat>, cells: array<nat>)
    requires Wired(decoder, cells)
    modifies cells
    ensures forall i | 0 <= i < |decoder| :: i + 1 <= cells[decoder[i]] <= |decoder|
    ensures forall i | 0 <= i < |decoder| :: decoder[cells[decoder[i]] - 1] == decoder[i]
  {
    var pattern := 1;
    for offset := 0 to |decoder|
      invariant pattern == offset + 1
      invariant forall i | 0 <= i < offset :: i + 1 <= cells[decoder[i]] <= offset
      invariant forall i | 0 <= i < offset :: decoder[cells[decoder[i]] - 1] == decoder[i]
    {
      cells[decoder[offset]] := pattern;
      pattern := pattern + 1;
    }
  }

  method CheckAndInvert(decoder: seq<nat>, cells: array<nat>) returns (ok: bool)
    requires Wired(decoder, cells) && |decoder| < WORD - 1
    requires forall i | 0 <= i < |decoder| :: i + 1 <= cells[decoder[i]] <= |decoder|
    requires forall i | 0 <= i < |decoder| :: decoder[cells[decoder[i]] - 1] == decoder[i]
    modifies cells
    ensures ok <==> Injective(decoder, |decoder|)
    ensures ok ==> forall i | 0 <= i < |decoder| :: cells[decoder[i]] == Not(i + 1)
  {
    var pattern: nat := 1;
    for offset := 0 to |decoder|
      invariant pattern == offset + 1
      invariant forall i | 0 <= i < offset :: cells[decoder[i]] == Not(i + 1)
      invariant forall i, j | 0 <= i < offset && i < j < |decoder| :: decoder[i] != decoder[j]
      invariant forall i | offset <= i < |decoder| :: i + 1 <= cells[decoder[i]] <= |decoder|
      invariant forall i | offset <= i < |decoder| :: decoder[cells[decoder[i]] - 1] == decoder[i]
    {
      var temp := cells[decoder[offset]];
      if temp != pattern {
        assert decoder[temp - 1] == decoder[offset] && temp - 1 > offset;
        return false;
      }
      forall j | offset < j < |decoder| ensures decoder[offset] != decoder[j] {
        assert cells[decoder[j]] >= j + 1;
      }
      cells[decoder[offset]] := Not(pattern);
      pattern := pattern + 1;
    }
    return true;
  }

  method CheckAndClear(decoder: seq<nat>, cells: array<nat>) returns (ok: bool)
    requires Wired(decoder, cells) && |decoder| < WORD - 1 && Injective(decoder, |decoder|)
    requires forall i | 0 <= i < |decoder| :: cells[decoder[i]] == Not(i + 1)
    modifies cells
    ensures ok && forall i | 0 <= i < |decoder| :: cells[decoder[i]] == 0
  {
    var pattern: nat := 1;
    for offset := 0 to |decoder|
      invariant pattern == offset + 1
      invariant forall i | 0 <= i < offset :: cells[decoder[i]] == 0
      invariant forall i | offset <= i < |decoder| :: cells[decoder[i]] == Not(i + 1)
    {
      var temp := cells[decoder[offset]];
      if temp != Not(pattern) { return false; }
      cells[decoder[offset]] := 0;
      pattern := pattern + 1;
    }
    return true;
  }

  // --------------------------------------------------------- faulty wiring

  /** What a stuck line makes of an offset; `line` is its mask. */
  function Stuck(x: bv32, line: bv32, high: bool): bv32 {
    if high then x | line else x & !line
  }

  /** Two shorted lines both carry the or, or both the and, of their signals. */
  function Shorted(x: bv32, a: bv32, b: bv32, or: bool): bv32 {
    if or then (if x & (a | b) != 0 then x | a | b else x)
    else (if x & a != 0 && x & b != 0 then x else x & !(a | b))
  }

  /** `bus[x]` is the pattern on the address lines for offset `x`: nothing for 0, one line of its own for
      each power of two. */
  ghost predicate Bus(bus: seq<bv32>, len: nat) {
    && len < |bus| && bus[0] == 0
    && (forall i: nat | Pow2(i) < len :: bus[Pow2(i)] != 0)
    && (forall i: nat, j: nat | Pow2(i) < len && Pow2(j) < len && i != j :: bus[Pow2(i)] & bus[Pow2(j)] == 0)
  }

  /** A single stuck address line is caught, whatever the rest of the wiring does. */
  lemma {:induction false} StuckLineIsCaught(
      decoder: seq<nat>, len: nat, bus: seq<bv32>, wiring: bv32 -> nat, i: nat, high: bool)
    requires Bus(bus, len) && |decoder| == |bus| && Pow2(i) < len
    requires forall x | 0 <= x < |decoder| :: decoder[x] == wiring(Stuck(bus[x], bus[Pow2(i)], high))
    ensures !InjectiveOnWalk(decoder, len)
  {
  }

  /** Two shorted address lines are caught. */
  lemma {:induction false} ShortedLinesAreCaught(
      decoder: seq<nat>, len: nat, bus: seq<bv32>, wiring: bv32 -> nat, i: nat, j: nat, or: bool)
    requires Bus(bus, len) && |decoder| == |bus| && Pow2(i) < len && Pow2(j) < len && i < j
    requires forall x | 0 <= x < |decoder| :: decoder[x] == wiring(Shorted(bus[x], bus[Pow2(i)], bus[Pow2(j)], or))
    ensures !InjectiveOnWalk(decoder, len)
  {
  }

  // -------------------------------------------------------------- one pass

  /** One pass over the region from `start` to `end`: the walking-address phase looks at the offsets below
      `len`, the fill phase at `len` as well. It passes exactly when every offset has a cell of its own,
      and then leaves the region zeroed. */
  method TestPass(decoder: seq<nat>, cells: array<nat>, len: nat) returns (rc: int)
    requires Wired(decoder, cells) && |decoder| == len + 1 && len <= 0x3FFF_FFFF
    modifies cells
    ensures rc == if Injective(decoder, len + 1) then 0 else 1
    ensures rc == 0 ==> forall i | 0 <= i <= len :: cells[decoder[i]] == 0
  {
    var ok := AddressLineTest(decoder, cells, len);
    if !ok { return 1; }
    ok := FillTest(decoder, cells);
    rc := if ok then 0 else 1;
  }
}
