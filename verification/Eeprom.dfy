/** Chunked access to an I2C EEPROM whose address counter wraps inside a page, against
    flat access to the bytes of the offset range. */
module Eeprom {
  import opened Machine

  const BLOCK: nat := 256

  /** `wide` is a two-byte word address; `bits` gives the write page size (8 where it is not
      configured); `burst` is the longest transfer of the bus driver. */
  datatype Config = Config(device: nat, wide: bool, bits: nat, burst: nat)

  predicate Usable(c: Config) { c.burst >= 1 && c.bits <= 31 }

  /** A byte of the chips on the bus: the bus address that selects it and its word address. */
  datatype Cell = Cell(select: nat, word: nat)

  type Memory = map<Cell, Byte>

  /** An erased byte reads 0xFF. */
  function Get(m: Memory, x: Cell): Byte { if x in m then m[x] else 0xFF }

  // --------------------------------------------------- from offsets to cells

  /** Bitwise or. */
  function Or(a: nat, b: nat): nat {
    if a == 0 then b else if b == 0 then a
    else 2 * Or(a / 2, b / 2) + if a % 2 == 1 || b % 2 == 1 then 1 else 0
  }

  predicate Disjoint(a: nat, b: nat) {
    a == 0 || b == 0 || (!(a % 2 == 1 && b % 2 == 1) && Disjoint(a / 2, b / 2))
  }

  lemma {:induction false} OrOfDisjoint(a: nat, b: nat)
    requires Disjoint(a, b)
    ensures Or(a, b) == a + b
  {
    if a != 0 && b != 0 { OrOfDisjoint(a / 2, b / 2); }
  }

  /** Bit by bit. */
  lemma {:induction false} OrBits(a: nat, b: nat, k: nat)
    ensures Or(a, b) / Pow2(k) % 2 == 1 <==> a / Pow2(k) % 2 == 1 || b / Pow2(k) % 2 == 1
    decreases k
  {
    if a != 0 && b != 0 && k > 0 {
      OrBits(a / 2, b / 2, k - 1);
      HalvesFirst(a, k);
      HalvesFirst(b, k);
      HalvesFirst(Or(a, b), k);
    }
  }

  lemma HalvesFirst(n: nat, k: nat)
    requires k > 0
    ensures n / Pow2(k) == n / 2 / Pow2(k - 1)
  {
    var p := Pow2(k - 1);
    var h := n / 2;
    assert h == p * (h / p) + h % p;
    assert 2 * (p * (h / p)) == (2 * p) * (h / p);
    ModUnique(n, 2 * p, h / p, 2 * (h % p) + n % 2);
  }

  /** The bytes one bus address selects. */
  function Span(c: Config): nat { if c.wide then 65536 else 256 }

  /** The cell behind an offset: the bits above the word address go into the bus address. */
  function Locate(c: Config, offset: nat): Cell {
    if c.wide then Cell(Select(c, offset / 65536), offset % 65536)
    else Cell(Select(c, offset / 256), offset % 256)
  }

  /** The first address byte: the block number with the device address put in. */
  function Select(c: Config, block: nat): nat { Or(block % 256, c.device % 256) }

  lemma {:induction false} SelectClear(c: Config, block: nat)
    requires block < 256 && Disjoint(block, c.device % 256)
    ensures Select(c, block) == block + c.device % 256
  {
    OrOfDisjoint(block, c.device % 256);
  }

  /** Every selector in the range fits a byte and stays clear of the device address. */
  ghost predicate Clear(c: Config, first: nat, end: nat) {
    forall offset: nat | first <= offset < end ::
      offset / Span(c) < 256 && Disjoint(offset / Span(c), c.device % 256)
  }

  ghost predicate Separate(c: Config, first: nat, end: nat) {
    forall a: nat, b: nat | first <= a < b < end :: Locate(c, a) != Locate(c, b)
  }

  lemma {:induction false} LocateClear(c: Config, offset: nat)
    requires offset / Span(c) < 256 && Disjoint(offset / Span(c), c.device % 256)
    ensures Locate(c, offset) == Cell(offset / Span(c) + c.device % 256, offset % Span(c))
  {
    SelectClear(c, offset / Span(c));
  }

  /** Clear selectors keep all cells apart. */
  lemma ClearIsSeparate(c: Config, first: nat, end: nat)
    requires Clear(c, first, end)
    ensures Separate(c, first, end)
  {
    forall a: nat, b: nat | first <= a < b < end ensures Locate(c, a) != Locate(c, b) {
      LocateClear(c, a);
      LocateClear(c, b);
      assert a == Span(c) * (a / Span(c)) + a % Span(c) && b == Span(c) * (b / Span(c)) + b % Span(c);
    }
  }

  // ------------------------------------------------------------ flat access

  /** The bytes of an offset range. */
  function Flat(m: Memory, c: Config, offset: nat, n: nat): seq<Byte>
    decreases n
  {
    if n == 0 then [] else [Get(m, Locate(c, offset))] + Flat(m, c, offset + 1, n - 1)
  }

  /** The memory after the bytes of `data` are stored one by one from `offset` on. */
  function Stored(m: Memory, c: Config, offset: nat, data: seq<Byte>): Memory
    decreases data
  {
    if data == [] then m else Stored(m[Locate(c, offset) := data[0]], c, offset + 1, data[1..])
  }

  lemma {:induction false} StoredConcat(m: Memory, c: Config, offset: nat, a: seq<Byte>, b: seq<Byte>)
    ensures Stored(m, c, offset, a + b) == Stored(Stored(m, c, offset, a), c, offset + |a|, b)
    decreases a
  {
    if a == [] {
      assert a + b == b;
    } else {
      assert (a + b)[1..] == a[1..] + b;
      StoredConcat(m[Locate(c, offset) := a[0]], c, offset + 1, a[1..], b);
    }
  }

  lemma {:induction false} FlatConcat(m: Memory, c: Config, offset: nat, n: nat, k: nat)
    ensures Flat(m, c, offset, n + k) == Flat(m, c, offset, n) + Flat(m, c, offset + n, k)
    decreases n
  {
    if n > 0 {
      FlatConcat(m, c, offset + 1, n - 1, k);
      assert Flat(m, c, offset, n + k) == [Get(m, Locate(c, offset))] + Flat(m, c, offset + 1, (n - 1) + k);
    }
  }

  lemma {:induction false} FlatAt(m: Memory, c: Config, offset: nat, n: nat)
    ensures |Flat(m, c, offset, n)| == n
    ensures forall i | 0 <= i < n :: Flat(m, c, offset, n)[i] == Get(m, Locate(c, offset + i))
    decreases n
  {
    if n > 0 {
      FlatAt(m, c, offset + 1, n - 1);
      forall i | 0 <= i < n ensures Flat(m, c, offset, n)[i] == Get(m, Locate(c, offset + i)) {
        if i > 0 { assert Flat(m, c, offset, n)[i] == Flat(m, c, offset + 1, n - 1)[i - 1]; }
      }
    }
  }

  /** The offset `offset + i` is one of the range's that lead to `x`. */
  predicate LeadsTo(c: Config, offset: nat, i: nat, x: Cell) { Locate(c, offset + i) == x }

  /** Bytes outside the range keep their value. */
  lemma {:induction false} StoredElsewhere(m: Memory, c: Config, offset: nat, data: seq<Byte>, x: Cell)
    requires forall i: nat | i < |data| :: !LeadsTo(c, offset, i, x)
    ensures Get(Stored(m, c, offset, data), x) == Get(m, x)
    decreases data
  {
    if data != [] {
      assert !LeadsTo(c, offset, 0, x);
      var next := offset + 1;
      forall i: nat | i < |data| - 1 ensures !LeadsTo(c, next, i, x) {
        assert !LeadsTo(c, offset, i + 1, x);
      }
      StoredElsewhere(m[Locate(c, offset) := data[0]], c, next, data[1..], x);
    }
  }

  /** A byte stored and not overwritten by a later one of the range is there. */
  lemma {:induction false} StoredLast(m: Memory, c: Config, offset: nat, data: seq<Byte>, i: nat, x: Cell)
    requires i < |data| && LeadsTo(c, offset, i, x)
    requires forall j: nat | i < j < |data| :: !LeadsTo(c, offset, j, x)
    ensures Get(Stored(m, c, offset, data), x) == data[i]
    decreases data
  {
    var m' := m[Locate(c, offset) := data[0]];
    var next := offset + 1;
    forall k: nat | i <= k < |data| - 1 ensures !LeadsTo(c, next, k, x) {
      assert !LeadsTo(c, offset, k + 1, x);
    }
    if i > 0 {
      StoredLast(m', c, next, data[1..], i - 1, x);
    } else {
      StoredElsewhere(m', c, next, data[1..], x);
    }
  }

  /** The last offset of the range that leads to the cell of `offset + i`. */
  lemma {:induction false} LastSharer(c: Config, offset: nat, n: nat, i: nat, x: Cell) returns (k: nat)
    requires i < n && LeadsTo(c, offset, i, x)
    ensures i <= k < n && LeadsTo(c, offset, k, x)
    ensures forall j: nat | k < j < n :: !LeadsTo(c, offset, j, x)
    decreases n - i
  {
    if j: nat :| i < j < n && LeadsTo(c, offset, j, x) {
      k := LastSharer(c, offset, n, j, x);
    } else {
      k := i;
    }
  }

  /** Offsets of the range that share a cell carry the same byte. */
  ghost predicate Consistent(c: Config, offset: nat, data: seq<Byte>) {
    forall i, j | 0 <= i < j < |data| && Locate(c, offset + i) == Locate(c, offset + j) :: data[i] == data[j]
  }

  /** What was stored is read back exactly when the data agrees on shared cells. */
  lemma {:induction false} ReadBackExactly(m: Memory, c: Config, offset: nat, data: seq<Byte>)
    ensures Flat(Stored(m, c, offset, data), c, offset, |data|) == data <==> Consistent(c, offset, data)
  {
    var m' := Stored(m, c, offset, data);
    FlatAt(m', c, offset, |data|);
    var back := Flat(m', c, offset, |data|);
    if Consistent(c, offset, data) {
      forall i: nat | i < |data| ensures back[i] == data[i] {
        var x := Locate(c, offset + i);
        var k := LastSharer(c, offset, |data|, i, x);
        StoredLast(m, c, offset, data, k, x);
      }
    }
    if back == data {
      forall i, j | 0 <= i < j < |data| && Locate(c, offset + i) == Locate(c, offset + j)
        ensures data[i] == data[j]
      {
        assert back[i] == back[j];
      }
    }
  }

  /** With clear selectors a write is read back. */
  lemma {:induction false} RoundTrip(m: Memory, c: Config, offset: nat, data: seq<Byte>)
    requires Clear(c, offset, offset + |data|)
    ensures Flat(Stored(m, c, offset, data), c, offset, |data|) == data
  {
    ClearIsSeparate(c, offset, offset + |data|);
    ReadBackExactly(m, c, offset, data);
  }

  // ---------------------------------------------------- transfers on the bus

  /** The chip's address counter: it wraps at the end of the page. */
  function Next(x: Cell, page: nat): Cell
    requires page >= 1
  {
    if (x.word + 1) % page == 0 && x.word + 1 >= page then x.(word := x.word + 1 - page)
    else x.(word := x.word + 1)
  }

  function BurstWrite(m: Memory, x: Cell, page: nat, data: seq<Byte>): Memory
    requires page >= 1
    decreases data
  {
    if data == [] then m else BurstWrite(m[x := data[0]], Next(x, page), page, data[1..])
  }

  function BurstRead(m: Memory, x: Cell, page: nat, n: nat): seq<Byte>
    requires page >= 1
    decreases n
  {
    if n == 0 then [] else [Get(m, x)] + BurstRead(m, Next(x, page), page, n - 1)
  }

  lemma BlockIsPow2()
    ensures Pow2(8) == BLOCK
  {
  }

  lemma ModOfMultiple(n: nat, page: nat, k: nat)
    requires page >= 1 && k >= 1 && page * k >= 1
    ensures (n % (page * k)) % page == n % page
  {
    var q, w := n / (page * k), n % (page * k);
    assert n == page * k * q + w == page * (k * q) + w;
    assert w == page * (w / page) + w % page;
    assert page * (k * q) + page * (w / page) == page * (k * q + w / page);
    ModUnique(n, page, k * q + w / page, w % page);
  }

  lemma ModStep(n: nat, page: nat)
    requires page >= 1 && n % page + 1 < page
    ensures (n + 1) % page == n % page + 1 && (n + 1) / page == n / page
  {
    ModUnique(n + 1, page, n / page, n % page + 1);
  }

  /** The offset's place in its page is the word address's. */
  lemma WordInPage(c: Config, offset: nat, page: nat, k: nat)
    requires page >= 1 && page * k == BLOCK
    ensures Locate(c, offset).word % page == offset % page
    ensures (offset % BLOCK) % page == offset % page
  {
    ModOfMultiple(offset, page, k);
    assert page * (k * 256) == BLOCK * 256;
    ModOfMultiple(offset, page, k * 256);
  }

  lemma SpanStep(offset: nat, span: nat, page: nat, k: nat)
    requires page >= 1 && span >= 1 && page * k == span && offset % page + 1 < page
    ensures offset % span + 1 < span
  {
    ModOfMultiple(offset, page, k);
    ModStep(offset % span, page);
    ModUnique(span, page, k, 0);
  }

  lemma NextInPage(x: Cell, page: nat)
    requires page >= 1 && x.word % page + 1 < page
    ensures Next(x, page) == x.(word := x.word + 1)
  {
    ModStep(x.word, page);
  }

  lemma LocateStep(c: Config, offset: nat)
    requires offset % Span(c) + 1 < Span(c)
    ensures Locate(c, offset + 1) == Locate(c, offset).(word := Locate(c, offset).word + 1)
  {
    ModStep(offset, Span(c));
  }

  /** Inside a page the counter follows the offsets. */
  lemma NextFollows(c: Config, offset: nat, page: nat, k: nat)
    requires page >= 1 && page * k == BLOCK
    requires offset % page + 1 < page
    ensures Next(Locate(c, offset), page) == Locate(c, offset + 1)
    ensures (offset + 1) % page == offset % page + 1
  {
    WordInPage(c, offset, page, k);
    NextInPage(Locate(c, offset), page);
    ModStep(offset, page);
    var k' := if c.wide then k * 256 else k;
    assert page * k' == Span(c);
    SpanStep(offset, Span(c), page, k');
    LocateStep(c, offset);
  }

  lemma {:induction false} BurstWriteIsFlat(m: Memory, c: Config, offset: nat, page: nat, k: nat, data: seq<Byte>)
    requires page >= 1 && page * k == BLOCK
    requires offset % page + |data| <= page
    ensures BurstWrite(m, Locate(c, offset), page, data) == Stored(m, c, offset, data)
    decreases data
  {
    if |data| == 1 {
      assert data[1..] == [];
    } else if data != [] {
      NextFollows(c, offset, page, k);
      BurstWriteIsFlat(m[Locate(c, offset) := data[0]], c, offset + 1, page, k, data[1..]);
    }
  }

  lemma {:induction false} BurstReadIsFlat(m: Memory, c: Config, offset: nat, n: nat)
    requires offset % BLOCK + n <= BLOCK
    ensures BurstRead(m, Locate(c, offset), BLOCK, n) == Flat(m, c, offset, n)
    decreases n
  {
    if n > 1 {
      NextFollows(c, offset, BLOCK, 1);
      BurstReadIsFlat(m, c, offset + 1, n - 1);
    }
  }

  // ----------------------------------------------------------- chunk lengths

  /** Length of the next write transfer. The page offset is taken from the low eight bits
      of the offset only. */
  function WriteChunk(c: Config, offset: nat, left: nat): nat {
    Min(left, Min(c.burst, Pow2(c.bits) - (offset % BLOCK) % Pow2(c.bits)))
  }

  function ReadChunk(c: Config, offset: nat, left: nat): nat {
    Min(left, Min(c.burst, BLOCK - offset % BLOCK))
  }

  lemma {:induction false} BigPage(bits: nat)
    requires bits >= 9
    ensures Pow2(bits) >= 512
  {
    if bits > 9 {
      BigPage(bits - 1);
    } else {
      assert Pow2(9) == 2 * Pow2(8) == 4 * Pow2(7) == 8 * Pow2(6) == 16 * Pow2(5) == 32 * Pow2(4);
    }
  }

  /** Transfers stay inside write pages exactly when a page has at most 256 bytes (or the
      bus moves single bytes): a larger page is misjudged in its upper part. */
  lemma ChunksStayInPageExactly(c: Config)
    requires Usable(c)
    ensures (forall offset: nat, left: nat ::
               offset % Pow2(c.bits) + WriteChunk(c, offset, left) <= Pow2(c.bits))
      <==> c.bits <= 8 || c.burst == 1
  {
    var page := Pow2(c.bits);
    if c.bits <= 8 {
      forall offset: nat, left: nat ensures offset % page + WriteChunk(c, offset, left) <= page {
        WriteChunkOk(c, offset, left);
      }
    } else if c.burst > 1 {
      BigPage(c.bits);
      var offset: nat := page - 1;
      ModUnique(offset, page, 0, page - 1);
      ModUnique(offset % BLOCK, page, 0, offset % BLOCK);
      assert offset % page + WriteChunk(c, offset, 2) > page;
    }
  }

  /** A transfer is as long as it may be: to the end of the page or block, of the bus driver's buffer or of the range. */
  lemma ChunksAreLongest(c: Config, offset: nat, left: nat)
    requires Usable(c) && c.bits <= 8
    ensures var w := WriteChunk(c, offset, left); w == left || w == c.burst || (offset + w) % Pow2(c.bits) == 0
    ensures var r := ReadChunk(c, offset, left); r == left || r == c.burst || (offset + r) % 256 == 0
  {
    Pow2Sum(c.bits, 8 - c.bits);
    BlockIsPow2();
    WordInPage(c, offset, Pow2(c.bits), Pow2(8 - c.bits));
    ToTheEnd(offset, Pow2(c.bits));
    ToTheEnd(offset, BLOCK);
  }

  lemma ToTheEnd(offset: nat, page: nat)
    requires page >= 1
    ensures (offset + (page - offset % page)) % page == 0
  {
    ModUnique(offset + (page - offset % page), page, offset / page + 1, 0);
  }

  lemma WriteChunkOk(c: Config, offset: nat, left: nat)
    requires Usable(c) && c.bits <= 8
    ensures left > 0 ==> 0 < WriteChunk(c, offset, left) <= left
    ensures WriteChunk(c, offset, left) <= c.burst
    ensures offset % Pow2(c.bits) + WriteChunk(c, offset, left) <= Pow2(c.bits)
    ensures Pow2(c.bits) * Pow2(8 - c.bits) == BLOCK
  {
    Pow2Sum(c.bits, 8 - c.bits);
    BlockIsPow2();
    WordInPage(c, offset, Pow2(c.bits), Pow2(8 - c.bits));
  }

  // ---------------------------------------------------------------- the bus

  datatype Transfer = Transfer(at: Cell, len: nat, ok: bool)

  predicate InPage(t: Transfer, page: nat, burst: nat)
    requires page >= 1
  {
    0 < t.len <= burst && t.at.word % page + t.len <= page
  }

  /** What a loop of transfers did to the log: `n` transfers were added, all in their pages,
      and `failed` says whether one of them failed. */
  ghost predicate Added(log: seq<Transfer>, before: seq<Transfer>, page: nat, burst: nat, failed: bool)
    requires page >= 1
  {
    && |before| <= |log| && log[..|before|] == before
    && (forall i | |before| <= i < |log| :: InPage(log[i], page, burst))
    && (failed <==> exists i :: |before| <= i < |log| && !log[i].ok)
  }

  lemma AddedOne(log: seq<Transfer>, before: seq<Transfer>, page: nat, burst: nat, failed: bool, t: Transfer)
    requires page >= 1 && Added(log, before, page, burst, failed) && InPage(t, page, burst)
    ensures Added(log + [t], before, page, burst, failed || !t.ok)
  {
    var log' := log + [t];
    assert log'[..|before|] == log[..|before|];
    assert !t.ok ==> !log'[|log|].ok;
    if failed {
      var i :| |before| <= i < |log| && !log[i].ok;
      assert !log'[i].ok;
    }
  }

  /** The offsets from `offset` up to `offset + n` lead to `x`. */
  ghost predicate InRange(c: Config, offset: nat, n: nat, x: Cell) {
    exists i: nat :: i < n && LeadsTo(c, offset, i, x)
  }

  /** Outside the range nothing changed. */
  ghost predicate SameOutside(m: Memory, m': Memory, c: Config, offset: nat, n: nat) {
    forall x: Cell | !InRange(c, offset, n, x) :: Get(m', x) == Get(m, x)
  }

  lemma WidenedRange(c: Config, offset: nat, n: nat, at: nat, k: nat, x: Cell)
    requires offset <= at && at + k <= offset + n && InRange(c, at, k, x)
    ensures InRange(c, offset, n, x)
  {
    var i: nat :| i < k && LeadsTo(c, at, i, x);
    assert LeadsTo(c, offset, at - offset + i, x);
  }

  lemma {:induction false} StoredInside(m: Memory, m': Memory, c: Config, offset: nat, n: nat, at: nat, data: seq<Byte>)
    requires SameOutside(m, m', c, offset, n)
    requires offset <= at && at + |data| <= offset + n
    ensures SameOutside(m, Stored(m', c, at, data), c, offset, n)
  {
    forall x: Cell | !InRange(c, offset, n, x) ensures Get(Stored(m', c, at, data), x) == Get(m, x) {
      if InRange(c, at, |data|, x) { WidenedRange(c, offset, n, at, |data|, x); }
      forall i: nat | i < |data| ensures !LeadsTo(c, at, i, x) {
        assert !InRange(c, at, |data|, x);
      }
      StoredElsewhere(m', c, at, data, x);
    }
  }

  /** The first `p` bytes of `data` were transferred; `clean` says that none failed. */
  ghost predicate Written(m: Memory, m': Memory, c: Config, offset: nat, data: seq<Byte>, p: nat, clean: bool)
    requires p <= |data|
  {
    SameOutside(m, m', c, offset, |data|) && (clean ==> m' == Stored(m, c, offset, data[..p]))
  }

  lemma {:induction false} WrittenStep(m: Memory, m': Memory, c: Config, offset: nat, data: seq<Byte>, p: nat,
                                       clean: bool, len: nat, k: nat)
    requires k <= len && p + len <= |data| && Written(m, m', c, offset, data, p, clean)
    ensures Written(m, Stored(m', c, offset + p, data[p..p + len][..k]), c, offset, data, p + len, clean && k == len)
  {
    var chunk := data[p..p + len];
    StoredInside(m, m', c, offset, |data|, offset + p, chunk[..k]);
    if clean && k == len {
      assert chunk[..k] == chunk;
      StoredConcat(m, c, offset, data[..p], chunk);
      assert data[..p] + chunk == data[..p + len];
    }
  }

  /** `offset + cnt` as an unsigned; when it wraps, the loops below do nothing. */
  function End(offset: nat, cnt: nat): nat {
    if offset + cnt < WORD then offset + cnt else offset + cnt - WORD
  }

  function Reached(offset: nat, cnt: nat): nat { if offset + cnt < WORD then cnt else 0 }

  /** The whole range is gone through unless its end wraps around. */
  lemma ReachedExactly(offset: nat, cnt: nat)
    requires offset < WORD && cnt < WORD
    ensures Reached(offset, cnt) == cnt <==> offset + cnt < WORD || cnt == 0
    ensures Reached(offset, cnt) > 0 ==> End(offset, cnt) == offset + cnt
  {
  }

  /** The chips and everything that was transferred. `patience(t)` is the number of bytes
      that transfer number `t` gets through at most. */
  class Bus {
    var memory: Memory
    var log: seq<Transfer>
    const patience: nat -> nat

    constructor (patience: nat -> nat)
      ensures memory == map[] && log == [] && this.patience == patience
    {
      this.patience := patience;
      memory := map[];
      log := [];
    }

    method I2cWrite(x: Cell, page: nat, data: seq<Byte>) returns (failed: bool)
      requires page >= 1
      modifies this
      ensures failed == (patience(old(|log|)) < |data|)
      ensures log == old(log) + [Transfer(x, |data|, !failed)]
      ensures memory == BurstWrite(old(memory), x, page, data[..Min(patience(old(|log|)), |data|)])
    {
      var n := Min(patience(|log|), |data|);
      failed := n < |data|;
      memory := BurstWrite(memory, x, page, data[..n]);
      log := log + [Transfer(x, |data|, !failed)];
    }

    /** The bytes after the first `|got|` of a failed transfer are not defined by the driver;
        here they stay as they were. */
    method I2cRead(x: Cell, n: nat) returns (got: seq<Byte>, failed: bool)
      modifies this
      ensures failed == (patience(old(|log|)) < n)
      ensures log == old(log) + [Transfer(x, n, !failed)] && memory == old(memory)
      ensures got == BurstRead(memory, x, BLOCK, Min(patience(old(|log|)), n))
    {
      failed := patience(|log|) < n;
      got := BurstRead(memory, x, BLOCK, Min(patience(|log|), n));
      log := log + [Transfer(x, n, !failed)];
    }

    /** One write transfer, of the next bytes of `data`. */
    method WriteStep(c: Config, offset: nat, data: seq<Byte>, p: nat, len: nat, rcode: nat,
                     ghost memory0: Memory, ghost log0: seq<Transfer>) returns (rcode': nat)
      requires Usable(c) && c.bits <= 8 && p < |data| && len == WriteChunk(c, offset + p, |data| - p)
      requires rcode <= 1 && Added(log, log0, Pow2(c.bits), c.burst, rcode == 1)
      requires Written(memory0, memory, c, offset, data, p, rcode == 0)
      modifies this
      ensures 0 < len <= |data| - p
      ensures rcode' <= 1 && Added(log, log0, Pow2(c.bits), c.burst, rcode' == 1)
      ensures Written(memory0, memory, c, offset, data, p + len, rcode' == 0)
    {
      var at, page := offset + p, Pow2(c.bits);
      WriteChunkOk(c, at, |data| - p);
      var chunk := data[p..p + len];
      ghost var k := Min(patience(|log|), len);
      WordInPage(c, at, page, Pow2(8 - c.bits));
      BurstWriteIsFlat(memory, c, at, page, Pow2(8 - c.bits), chunk[..k]);
      WrittenStep(memory0, memory, c, offset, data, p, rcode == 0, len, k);
      AddedOne(log, log0, page, c.burst, rcode == 1, Transfer(Locate(c, at), len, k == len));
      var failed := I2cWrite(Locate(c, at), page, chunk);
      rcode' := if failed then 1 else rcode;
    }

    /** Writes the first `cnt` bytes of `buffer`. Whatever fails on the way, transfers stay
        in their pages and no byte outside the range changes; without a failure the memory is
        that of a flat write. */
    method EepromWrite(c: Config, offset: nat, buffer: array<Byte>, cnt: nat) returns (rcode: nat)
      requires Usable(c) && c.bits <= 8 && offset < WORD && cnt < WORD && cnt <= buffer.Length
      modifies this
      ensures rcode <= 1 && Added(log, old(log), Pow2(c.bits), c.burst, rcode == 1)
      ensures SameOutside(old(memory), memory, c, offset, Reached(offset, cnt))
      ensures rcode == 0 ==> memory == Stored(old(memory), c, offset, buffer[..Reached(offset, cnt)])
    {
      var end := End(offset, cnt);
      ghost var n := Reached(offset, cnt);
      var data := buffer[..Reached(offset, cnt)];
      var at, p := offset, 0;
      rcode := 0;
      while at < end
        invariant p <= n && at == offset + p && (end == offset + n || (n == 0 && end <= offset))
        invariant rcode <= 1 && Added(log, old(log), Pow2(c.bits), c.burst, rcode == 1)
        invariant Written(old(memory), memory, c, offset, data, p, rcode == 0)
        decreases end - at
      {
        var len := WriteChunk(c, at, end - at);
        rcode := WriteStep(c, offset, data, p, len, rcode, old(memory), old(log));
        p := p + len;
        at := at + len;
      }
      assert data[..n] == data;
    }

    /** Copies what a transfer delivered into the buffer. */
    method CopyOut(got: seq<Byte>, buffer: array<Byte>, p: nat)
      requires p + |got| <= buffer.Length
      modifies buffer
      ensures buffer[..] == old(buffer[..p]) + got + old(buffer[p + |got|..])
    {
      var i := 0;
      while i < |got|
        invariant i <= |got|
        invariant forall k | 0 <= k < i :: buffer[p + k] == got[k]
        invariant forall k | 0 <= k < p || p + i <= k < buffer.Length :: buffer[k] == old(buffer[k])
      {
        buffer[p + i] := got[i];
        i := i + 1;
      }
    }

    /** One read transfer into `buffer[p..]`. */
    method ReadStep(c: Config, offset: nat, buffer: array<Byte>, p: nat, len: nat, rcode: nat,
                    ghost n: nat, ghost log0: seq<Transfer>) returns (rcode': nat)
      requires Usable(c) && p < n <= buffer.Length && len == ReadChunk(c, offset + p, n - p)
      requires rcode <= 1 && Added(log, log0, BLOCK, c.burst, rcode == 1)
      requires rcode == 0 ==> buffer[..p] == Flat(memory, c, offset, p)
      modifies this, buffer
      ensures rcode' <= 1 && Added(log, log0, BLOCK, c.burst, rcode' == 1)
      ensures memory == old(memory) && buffer[n..] == old(buffer[n..])
      ensures rcode' == 0 ==> buffer[..p + len] == Flat(memory, c, offset, p + len)
    {
      var at := offset + p;
      WordInPage(c, at, BLOCK, 1);
      ghost var k := Min(patience(|log|), len);
      BurstReadIsFlat(memory, c, at, k);
      FlatAt(memory, c, at, k);
      AddedOne(log, log0, BLOCK, c.burst, rcode == 1, Transfer(Locate(c, at), len, k == len));
      FlatConcat(memory, c, offset, p, len);
      var got, failed := I2cRead(Locate(c, at), len);
      CopyOut(got, buffer, p);
      rcode' := if failed then 1 else rcode;
    }

    /** Reads `cnt` bytes into `buffer`: without a failure, those of the flat range. */
    method EepromRead(c: Config, offset: nat, buffer: array<Byte>, cnt: nat) returns (rcode: nat)
      requires Usable(c) && offset < WORD && cnt < WORD && cnt <= buffer.Length
      modifies this, buffer
      ensures rcode <= 1 && Added(log, old(log), BLOCK, c.burst, rcode == 1) && memory == old(memory)
      ensures buffer[Reached(offset, cnt)..] == old(buffer[Reached(offset, cnt)..])
      ensures rcode == 0 ==> buffer[..Reached(offset, cnt)] == Flat(memory, c, offset, Reached(offset, cnt))
    {
      var end := End(offset, cnt);
      ghost var n := Reached(offset, cnt);
      var at, p := offset, 0;
      rcode := 0;
      while at < end
        invariant p <= n && at == offset + p && (end == offset + n || (n == 0 && end <= offset))
        invariant rcode <= 1 && Added(log, old(log), BLOCK, c.burst, rcode == 1) && memory == old(memory)
        invariant buffer[n..] == old(buffer[n..])
        invariant rcode == 0 ==> buffer[..p] == Flat(memory, c, offset, p)
        decreases end - at
      {
        var len := ReadChunk(c, at, end - at);
        rcode := ReadStep(c, offset, buffer, p, len, rcode, n, old(log));
        p := p + len;
        at := at + len;
      }
    }
  }
}
