/** The planner, the rounding of "start +length" and the protect command as they run. */
module FlashDriver {
  import opened Machine
  import opened Flash
  import opened FlashExact

  /** The array entries of one bank say the same as a range. */
  predicate Agrees(first: int, last: int, r: Range) {
    match r
    case Empty => first == -1 && last == -1
    case Range(f, l) => first == f && last == l
  }

  /** The inner loop: the sectors of `b` that start at `lo` and end at `hi`, -1 if there is none. */
  method FindSectors(b: Bank, lo: nat, hi: nat) returns (f: int, l: int)
    requires WellFormed(b) && lo <= hi
    ensures f == SectorStartingAt(b, lo) && l == SectorEndingAt(b, hi)
  {
    f, l := -1, -1;
    var bEnd, sEnd := b.start[0] + b.size - 1, |b.start| - 1;
    for sect := 0 to |b.start|
      invariant f == -1 || (0 <= f < sect && b.start[f] == lo)
      invariant l == -1 || (0 <= l < sect && SectorEnd(b, l) == hi)
      invariant f == -1 ==> forall j | 0 <= j < sect :: b.start[j] != lo
      invariant l == -1 ==> forall j | 0 <= j < sect :: SectorEnd(b, j) != hi
    {
      var end := if sect == sEnd then bEnd else b.start[sect + 1] - 1;
      SectorBounds(b, sect);
      assert end == SectorEnd(b, sect);
      if !(lo > end) && !(hi < b.start[sect]) {
        if lo == b.start[sect] { f := sect; }
        if hi == end { l := sect; }
      }
    }
    if f >= 0 { StartIsUnique(b, f); }
    if l >= 0 { StartIsUnique(b, l); }
  }

  /** One round of the outer loop, whose array entries are still -1. */
  method PlanBank(b: Bank, bank: nat, lo: nat, hi: nat, sFirst: array<int>, sLast: array<int>)
      returns (refused: bool, next: nat)
    requires (b.known ==> WellFormed(b)) && lo <= hi
    requires bank < sFirst.Length == sLast.Length && sFirst != sLast && sFirst[bank] == sLast[bank] == -1
    modifies sFirst, sLast
    ensures refused <==> BankStep(b, lo, hi).Refuse?
    ensures BankStep(b, lo, hi).Skip? ==> next == lo && Agrees(sFirst[bank], sLast[bank], Empty)
    ensures BankStep(b, lo, hi).Take? ==>
              var t := BankStep(b, lo, hi); next == t.next && Agrees(sFirst[bank], sLast[bank], Range(t.first, t.last))
    ensures forall m | 0 <= m < sFirst.Length && m != bank :: sFirst[m] == old(sFirst[m]) && sLast[m] == old(sLast[m])
  {
    if !b.known { return false, lo; }
    var f, l := FindSectors(b, lo, hi);
    sFirst[bank], sLast[bank] := f, l;
    if f >= 0 {
      if sLast[bank] < 0 {
        if hi > BankEnd(b) {
          sLast[bank] := |b.start| - 1;
        } else {
          return true, lo;
        }
      }
      if sLast[bank] < f { return true, lo; }
      next := Next(SectorEnd(b, sLast[bank]));
      refused := false;
    } else {
      next := lo;
      refused := b.start[0] <= lo < BankEnd(b) || l >= 0;
    }
  }

  /** flash_fill_sect_ranges. */
  method FillSectRanges(banks: seq<Bank>, addrFirst: nat, addrLast: nat, sFirst: array<int>, sLast: array<int>)
      returns (rcode: int, count: int)
    requires AllWellFormed(banks)
    requires sFirst.Length == sLast.Length == |banks| && sFirst != sLast
    modifies sFirst, sLast
    ensures var p := PlanFrom(banks, 0, addrFirst, addrLast);
            && rcode == (if p.ok then 0 else 1)
            && (p.ok ==> count == Count(p.ranges))
            && (p.ok ==> forall m | 0 <= m < |banks| :: Agrees(sFirst[m], sLast[m], p.ranges[m]))
  {
    ghost var whole := PlanFrom(banks, 0, addrFirst, addrLast);
    rcode, count := 0, 0;
    ClearRanges(sFirst, sLast);
    var bank: nat, lo: nat := 0, addrFirst;
    ghost var rest := whole;
    while bank < |banks| && lo <= addrLast
      invariant bank <= |banks| && rcode == 0
      invariant rest == PlanFrom(banks, bank, lo, addrLast) && rest.ok == whole.ok
      invariant forall m | bank <= m < |banks| :: whole.ranges[m] == rest.ranges[m]
      invariant forall m | bank <= m < |banks| :: sFirst[m] == sLast[m] == -1
      invariant forall m | 0 <= m < bank :: Agrees(sFirst[m], sLast[m], whole.ranges[m])
      invariant count == Count(whole.ranges[..bank])
      decreases |banks| - bank
    {
      PlanStep(banks, bank, lo, addrLast);
      var refused, next := PlanBank(banks[bank], bank, lo, addrLast, sFirst, sLast);
      if refused { return 1, count; }
      assert Agrees(sFirst[bank], sLast[bank], whole.ranges[bank]);
      CountBank(whole.ranges, bank, sFirst[bank], sLast[bank]);
      if sFirst[bank] >= 0 {
        count := count + (sLast[bank] - sFirst[bank] + 1);
      }
      lo := next;
      bank := bank + 1;
      rest := PlanFrom(banks, bank, lo, addrLast);
    }
    EmptyTail(whole.ranges, bank);
  }

  method ClearRanges(sFirst: array<int>, sLast: array<int>)
    requires sFirst.Length == sLast.Length && sFirst != sLast
    modifies sFirst, sLast
    ensures forall m | 0 <= m < sFirst.Length :: sFirst[m] == sLast[m] == -1
  {
    for bank := 0 to sFirst.Length
      invariant forall m | 0 <= m < bank :: sFirst[m] == sLast[m] == -1
    {
      sFirst[bank] := -1;
      sLast[bank] := -1;
    }
  }

  /** One bank's share of the plan, and the rest. */
  lemma PlanStep(banks: seq<Bank>, k: nat, lo: nat, hi: nat)
    requires AllWellFormed(banks) && k < |banks| && lo <= hi
    ensures var t, p := BankStep(banks[k], lo, hi), PlanFrom(banks, k, lo, hi);
            && (t.Refuse? ==> !p.ok)
            && (!t.Refuse? ==>
                  var q := PlanFrom(banks, k + 1, if t.Take? then t.next else lo, hi);
                  && p.ok == q.ok && p.ranges[k] == (if t.Take? then Range(t.first, t.last) else Empty)
                  && forall m | k < m < |banks| :: p.ranges[m] == q.ranges[m])
  {
  }

  lemma CountSnoc(ranges: seq<Range>, n: nat)
    requires n < |ranges|
    ensures Count(ranges[..n + 1]) ==
            Count(ranges[..n]) + if ranges[n].Empty? then 0 else ranges[n].last - ranges[n].first + 1
  {
    assert ranges[..n + 1][..n] == ranges[..n];
  }

  lemma CountBank(ranges: seq<Range>, n: nat, first: int, last: int)
    requires n < |ranges| && Agrees(first, last, ranges[n])
    ensures Count(ranges[..n + 1]) == Count(ranges[..n]) + if first >= 0 then last - first + 1 else 0
  {
    CountSnoc(ranges, n);
  }

  lemma {:induction false} EmptyTail(ranges: seq<Range>, n: nat)
    requires n <= |ranges| && forall m | n <= m < |ranges| :: ranges[m] == Empty
    ensures Count(ranges) == Count(ranges[..n])
    decreases |ranges|
  {
    if n < |ranges| {
      EmptyTail(ranges[..|ranges| - 1], n);
      assert ranges[..|ranges| - 1][..n] == ranges[..n];
    } else {
      assert ranges[..n] == ranges;
    }
  }

  // -------------------------------------------------------- start +length

  /** The last address of sector `i`, as the rounding computes it for any bank, known or not. */
  function EndAt(b: Bank, i: nat): nat
    requires i < |b.start|
  {
    Wrap((if i == |b.start| - 1 then b.start[0] + b.size else b.start[i + 1]) + WORD - 1)
  }

  ghost predicate Lists(b: Bank, i: nat, a: nat) {
    i < |b.start| && b.start[i] <= a <= EndAt(b, i)
  }

  /** No bank of unknown type lists a sector with `a` in it. */
  ghost predicate OnlyKnown(banks: seq<Bank>, a: nat) {
    forall k: nat, i: nat | k < |banks| && Lists(banks[k], i, a) :: banks[k].known
  }

  ghost predicate Contains(banks: seq<Bank>, k: nat, s: nat, a: nat)
    requires AllWellFormed(banks)
  {
    Sector(banks, 0, k, s) && banks[k].start[s] <= a <= SectorEnd(banks[k], s)
  }

  /** On a well-formed bank that is the end of the sector. */
  lemma EndAtIs(b: Bank, i: nat)
    requires WellFormed(b) && i < |b.start|
    ensures EndAt(b, i) == SectorEnd(b, i)
  {
    SectorBounds(b, i);
  }

  lemma ListsIsContains(banks: seq<Bank>, k: nat, i: nat, a: nat)
    requires AllWellFormed(banks) && OnlyKnown(banks, a)
    ensures k < |banks| && Lists(banks[k], i, a) <==> Contains(banks, k, i, a)
  {
    if k < |banks| && i < |banks[k].start| && banks[k].known { EndAtIs(banks[k], i); }
  }

  /** The first sector of `b` that contains `addr`. */
  method FindSector(b: Bank, addr: nat) returns (found: bool, end: nat, ghost s: nat)
    ensures found ==> Lists(b, s, addr) && end == EndAt(b, s)
    ensures forall i: nat :: Lists(b, i, addr) ==> found && s <= i
  {
    var i := 0;
    while i < |b.start|
      invariant i <= |b.start| && forall j: nat | j < i :: !Lists(b, j, addr)
    {
      end := EndAt(b, i);
      if addr <= end && addr >= b.start[i] { return true, end, i; }
      i := i + 1;
    }
    return false, 0, 0;
  }

  /** flash_sect_roundb: move `addr` to the end of the first sector that any bank lists for it. */
  method SectRoundb(banks: seq<Bank>, addr: nat) returns (rc: int, rounded: nat, ghost k: nat, ghost s: nat)
    ensures rc == 0 || rc == 1
    ensures rc == 0 ==> k < |banks| && Lists(banks[k], s, addr) && rounded == EndAt(banks[k], s)
    ensures forall m: nat, i: nat :: m < |banks| && Lists(banks[m], i, addr) ==> rc == 0 && (k < m || (k == m && s <= i))
    ensures rc != 0 ==> rounded == addr
  {
    rounded, k, s := addr, 0, 0;
    var bank := 0;
    while bank < |banks|
      invariant bank <= |banks|
      invariant forall m: nat, i: nat | m < bank :: !Lists(banks[m], i, addr)
    {
      var found, end; ghost var sect;
      found, end, sect := FindSector(banks[bank], addr);
      if found {
        if addr < end { rounded := end; }
        return 0, rounded, bank, sect;
      }
      bank := bank + 1;
    }
    return 1, addr, 0, 0;
  }

  /** Rounding the end of an interval up to its sector's end adds no sector. */
  lemma RoundingAddsNothing(banks: seq<Bank>, k: nat, s: nat, lo: nat, hi: nat, p: Plan)
    requires AllWellFormed(banks) && Ascending(banks) && Contains(banks, k, s, hi)
    requires Exact(banks, 0, p, lo, SectorEnd(banks[k], s))
    ensures Exact(banks, 0, p, lo, hi)
  {
    var end := SectorEnd(banks[k], s);
    forall m: nat, i: nat | Sector(banks, 0, m, i)
      ensures Meets(banks[m], i, lo, hi) <==> Meets(banks[m], i, lo, end)
    {
      SectorBounds(banks[m], i);
      SectorBounds(banks[k], s);
      if m == k && s < i { SectorsInOrder(banks[k], s, i); }
      if m == k && i < s { SectorsInOrder(banks[k], i, s); }
    }
  }

  lemma RoundedIsCovered(banks: seq<Bank>, k: nat, s: nat, lo: nat, hi: nat)
    requires AllWellFormed(banks) && Contains(banks, k, s, hi) && Covered(banks, 0, lo, hi)
    ensures Covered(banks, 0, lo, SectorEnd(banks[k], s)) && IsEnd(banks, 0, SectorEnd(banks[k], s))
  {
    SectorBounds(banks[k], s);
    forall a: nat | lo <= a <= SectorEnd(banks[k], s) ensures InFlash(banks, 0, a) {
      if a > hi {
        assert Holds(banks, 0, k, a);
      }
    }
  }

  lemma {:induction false} RoundedIsExact(banks: seq<Bank>, k: nat, s: nat, lo: nat, hi: nat)
    requires AllWellFormed(banks) && Ascending(banks) && Contains(banks, k, s, hi) && lo <= hi
    requires IsStart(banks, 0, lo) && Covered(banks, 0, lo, hi)
    ensures Exact(banks, 0, PlanFrom(banks, 0, lo, SectorEnd(banks[k], s)), lo, hi)
  {
    var end := SectorEnd(banks[k], s);
    SectorBounds(banks[k], s);
    RoundedIsCovered(banks, k, s, lo, hi);
    AlignedIsExact(banks, 0, lo, end);
    RoundingAddsNothing(banks, k, s, lo, hi, PlanFrom(banks, 0, lo, end));
  }

  /** Last address of "start +length" as an unsigned long. */
  function LengthEnd(start: nat, length: nat): nat { (start + length + WORD - 1) % WORD }

  /** "start +length" asks for flash that begins on a sector. */
  ghost predicate Plannable(banks: seq<Bank>, start: nat, length: nat)
    requires AllWellFormed(banks)
  {
    && Ascending(banks) && length > 0 && start + length <= WORD
    && IsStart(banks, 0, start) && Covered(banks, 0, start, start + length - 1)
  }

  /** addr_spec on its two numbers. "start end" is taken as it is; the end of "start +length" is rounded up to
      the end of its sector, and refused exactly when no bank lists it. */
  method AddrSpec(banks: seq<Bank>, start: nat, second: nat, lenUsed: bool) returns (rc: int, addrLast: nat)
    requires start < WORD && second < WORD
    ensures !lenUsed ==> rc == 1 && addrLast == second
    ensures lenUsed ==> Rounded(banks, LengthEnd(start, second), rc, addrLast)
    ensures lenUsed && AllWellFormed(banks) && OnlyKnown(banks, LengthEnd(start, second)) ==>
              rc == if InFlash(banks, 0, LengthEnd(start, second)) then 1 else -1
    ensures lenUsed && AllWellFormed(banks) && OnlyKnown(banks, LengthEnd(start, second)) && Plannable(banks, start, second) ==>
              rc == 1 && Exact(banks, 0, PlanFrom(banks, 0, start, addrLast), start, start + second - 1)
  {
    if !lenUsed { return 1, second; }
    var last := LengthEnd(start, second);
    var err; ghost var k; ghost var s;
    err, addrLast, k, s := SectRoundb(banks, last);
    rc := if err > 0 then -1 else 1;
    RoundedInFlash(banks, last, rc, addrLast);
    RoundedIsPlanned(banks, start, second, rc, addrLast);
  }

  /** `rc` says whether some bank lists `a`, and `end` is the end of a sector that does. */
  ghost predicate Rounded(banks: seq<Bank>, a: nat, rc: int, end: nat) {
    || (rc == 1 && exists k: nat, s: nat :: k < |banks| && Lists(banks[k], s, a) && end == EndAt(banks[k], s))
    || (rc == -1 && forall k: nat, s: nat :: k < |banks| ==> !Lists(banks[k], s, a))
  }

  lemma RoundedInFlash(banks: seq<Bank>, a: nat, rc: int, end: nat)
    requires Rounded(banks, a, rc, end)
    ensures AllWellFormed(banks) && OnlyKnown(banks, a) ==> rc == if InFlash(banks, 0, a) then 1 else -1
  {
    if AllWellFormed(banks) && OnlyKnown(banks, a) {
      SomeSector(banks, a);
      forall k: nat, s: nat ensures k < |banks| && Lists(banks[k], s, a) <==> Contains(banks, k, s, a) {
        ListsIsContains(banks, k, s, a);
      }
    }
  }

  lemma {:induction false} RoundedIsPlanned(banks: seq<Bank>, start: nat, length: nat, rc: int, end: nat)
    requires Rounded(banks, LengthEnd(start, length), rc, end)
    ensures AllWellFormed(banks) && OnlyKnown(banks, LengthEnd(start, length)) && Plannable(banks, start, length) ==>
              rc == 1 && Exact(banks, 0, PlanFrom(banks, 0, start, end), start, start + length - 1)
  {
    var a := LengthEnd(start, length);
    if AllWellFormed(banks) && OnlyKnown(banks, a) && Plannable(banks, start, length) {
      RoundedInFlash(banks, a, rc, end);
      PlannableIsRounded(banks, start, length);
      var k: nat, s: nat :| k < |banks| && Lists(banks[k], s, a) && end == EndAt(banks[k], s);
      ListsIsContains(banks, k, s, a);
      EndAtIs(banks[k], s);
    }
  }

  /** An address is in flash when some sector contains it. */
  lemma SomeSector(banks: seq<Bank>, a: nat)
    requires AllWellFormed(banks)
    ensures InFlash(banks, 0, a) <==> exists k: nat, s: nat :: Contains(banks, k, s, a)
  {
    if InFlash(banks, 0, a) {
      InItsSector(banks, a);
    }
    if k: nat, s: nat :| Contains(banks, k, s, a) {
      SectorBounds(banks[k], s);
      assert Holds(banks, 0, k, a);
    }
  }

  lemma {:induction false} PlannableIsRounded(banks: seq<Bank>, start: nat, length: nat)
    requires AllWellFormed(banks)
    ensures Plannable(banks, start, length) ==> InFlash(banks, 0, LengthEnd(start, length))
    ensures Plannable(banks, start, length) ==>
              forall k: nat, s: nat | Contains(banks, k, s, LengthEnd(start, length)) ::
                Exact(banks, 0, PlanFrom(banks, 0, start, SectorEnd(banks[k], s)), start, start + length - 1)
  {
    if Plannable(banks, start, length) {
      var last: nat := start + length - 1;
      assert LengthEnd(start, length) == last;
      assert InFlash(banks, 0, last);
      forall k: nat, s: nat | Contains(banks, k, s, last)
        ensures Exact(banks, 0, PlanFrom(banks, 0, start, SectorEnd(banks[k], s)), start, last)
      {
        RoundedIsExact(banks, k, s, start, last);
      }
    }
  }

  /** "start +length": rounding and then planning takes exactly the sectors that
      meet [start, start + length - 1], when the interval is in flash and starts on a sector. */
  method PlanLength(banks: seq<Bank>, start: nat, length: nat, sFirst: array<int>, sLast: array<int>)
      returns (rcode: int, count: int, ghost p: Plan)
    requires AllWellFormed(banks) && Plannable(banks, start, length) && length < WORD
    requires OnlyKnown(banks, start + length - 1)
    requires sFirst.Length == sLast.Length == |banks| && sFirst != sLast
    modifies sFirst, sLast
    ensures rcode == 0 && Exact(banks, 0, p, start, start + length - 1) && count == Count(p.ranges)
    ensures |p.ranges| == |banks| && forall m | 0 <= m < |banks| :: Agrees(sFirst[m], sLast[m], p.ranges[m])
  {
    assert LengthEnd(start, length) == start + length - 1;
    var rc, addrLast := AddrSpec(banks, start, length, true);
    p := PlanFrom(banks, 0, start, addrLast);
    assert p.ok;
    rcode, count := FillSectRanges(banks, start, addrLast, sFirst, sLast);
  }

  /** The sectors of a bank cover it. */
  lemma {:induction false} SectorOf(b: Bank, a: nat, i: nat) returns (s: nat)
    requires WellFormed(b) && i < |b.start| && b.start[i] <= a <= BankEnd(b)
    ensures s < |b.start| && b.start[s] <= a <= SectorEnd(b, s)
    decreases |b.start| - i
  {
    if a <= SectorEnd(b, i) { return i; }
    s := SectorOf(b, a, i + 1);
  }

  lemma InItsSector(banks: seq<Bank>, a: nat)
    requires AllWellFormed(banks) && InFlash(banks, 0, a)
    ensures exists m: nat, i: nat :: Contains(banks, m, i, a)
  {
    var m: nat :| Holds(banks, 0, m, a);
    var s := SectorOf(banks[m], a, 0);
    assert Contains(banks, m, s, a);
  }

  // ------------------------------------------------------------- protect

  /** flash_sect_protect: set the flags of the planned sectors to `p`. */
  method SectProtect(banks: seq<Bank>, protect: seq<array<bool>>, p: bool, addrFirst: nat, addrLast: nat)
      returns (rcode: int)
    requires AllWellFormed(banks) && |protect| == |banks|
    requires forall k | 0 <= k < |banks| :: protect[k].Length == |banks[k].start|
    requires forall i, j | 0 <= i < j < |banks| :: protect[i] != protect[j]
    modifies protect
    ensures var plan := PlanFrom(banks, 0, addrFirst, addrLast);
            && rcode == (if PlansSomething(plan) then 0 else 1)
            && forall k, s | 0 <= k < |banks| && 0 <= s < protect[k].Length ::
                 protect[k][s] == if rcode == 0 && Selected(plan, k, s) then p else old(protect[k][s])
  {
    ghost var plan := PlanFrom(banks, 0, addrFirst, addrLast);
    var sFirst, sLast := new int[|banks|], new int[|banks|];
    var planned;
    rcode, planned := FillSectRanges(banks, addrFirst, addrLast, sFirst, sLast);
    RangesInBanks(banks, 0, addrFirst, addrLast);
    CountIsZero(plan.ranges);
    if planned != 0 && rcode == 0 {
      ProtectRanges(banks, protect, p, sFirst, sLast, plan);
    } else if rcode == 0 {
      rcode := 1;
    }
  }

  /** Set the flags of the ranges in the arrays. */
  method ProtectRanges(banks: seq<Bank>, protect: seq<array<bool>>, p: bool, sFirst: array<int>, sLast: array<int>,
                       ghost plan: Plan)
    requires |protect| == |banks| == sFirst.Length == sLast.Length == |plan.ranges|
    requires forall k | 0 <= k < |banks| :: protect[k].Length == |banks[k].start|
    requires forall i, j | 0 <= i < j < |banks| :: protect[i] != protect[j]
    requires forall m | 0 <= m < |banks| :: Agrees(sFirst[m], sLast[m], plan.ranges[m])
    requires forall m | 0 <= m < |banks| && plan.ranges[m].Range? ::
               banks[m].known && plan.ranges[m].first <= plan.ranges[m].last < |banks[m].start|
    modifies protect
    ensures forall k, s | 0 <= k < |banks| && 0 <= s < protect[k].Length ::
              protect[k][s] == if Selected(plan, k, s) then p else old(protect[k][s])
  {
    var bank := 0;
    while bank < |banks|
      invariant bank <= |banks|
      invariant forall k, s | 0 <= k < bank && 0 <= s < protect[k].Length ::
                  protect[k][s] == if Selected(plan, k, s) then p else old(protect[k][s])
      invariant forall k, s | bank <= k < |banks| && 0 <= s < protect[k].Length ::
                  protect[k][s] == old(protect[k][s])
    {
      assert Agrees(sFirst[bank], sLast[bank], plan.ranges[bank]);
      ghost var flags := protect[bank];
      if banks[bank].known && 0 <= sFirst[bank] <= sLast[bank] {
        SetFlags(protect[bank], sFirst[bank], sLast[bank], p);
      }
      assert forall s: nat | s < flags.Length :: flags[s] == if Selected(plan, bank, s) then p else old(flags[s]);
      bank := bank + 1;
    }
  }

  method SetFlags(flags: array<bool>, first: nat, last: nat, p: bool)
    requires first <= last < flags.Length
    modifies flags
    ensures forall s | 0 <= s < flags.Length :: flags[s] == if first <= s <= last then p else old(flags[s])
  {
    for i := first to last + 1
      invariant forall s | 0 <= s < flags.Length :: flags[s] == if first <= s < i then p else old(flags[s])
    {
      flags[i] := p;
    }
  }

  /** Ranges are non-empty and belong to known banks. */
  lemma {:induction false} RangesInBanks(banks: seq<Bank>, k: nat, lo: nat, hi: nat)
    requires AllWellFormed(banks) && k <= |banks|
    ensures forall m | 0 <= m < |banks| && PlanFrom(banks, k, lo, hi).ranges[m].Range? ::
              var r := PlanFrom(banks, k, lo, hi).ranges[m];
              banks[m].known && r.first <= r.last < |banks[m].start|
    decreases |banks| - k
  {
    if k < |banks| && lo <= hi {
      match BankStep(banks[k], lo, hi)
      case Refuse =>
      case Skip => RangesInBanks(banks, k + 1, lo, hi);
      case Take(_, _, next) => RangesInBanks(banks, k + 1, next, hi);
    }
  }

  /** A plan without sectors is recognised by its count. */
  lemma {:induction false} CountIsZero(ranges: seq<Range>)
    requires forall m | 0 <= m < |ranges| && ranges[m].Range? :: ranges[m].first <= ranges[m].last
    ensures Count(ranges) >= 0
    ensures Count(ranges) == 0 <==> forall m | 0 <= m < |ranges| :: ranges[m].Empty?
  {
    if ranges != [] { CountIsZero(ranges[..|ranges| - 1]); }
  }
}
