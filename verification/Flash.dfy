/** Flash banks, and the planner that turns an address interval into sector ranges per bank. */
module Flash {
  import opened Machine

  /** flash_info_t. Sectors of any sizes; `known` is false for FLASH_UNKNOWN. */
  datatype Bank = Bank(known: bool, start: seq<nat>, size: nat)

  predicate WellFormed(b: Bank) {
    && 0 < |b.start| <= 0x8000
    && (forall i, j | 0 <= i < j < |b.start| :: b.start[i] < b.start[j])
    && b.start[|b.start| - 1] < b.start[0] + b.size <= WORD
  }

  function Last(b: Bank): nat
    requires WellFormed(b)
  {
    |b.start| - 1
  }

  /** Last address of the bank. */
  function BankEnd(b: Bank): nat
    requires WellFormed(b)
  {
    b.start[0] + b.size - 1
  }

  /** Last address of sector `i`. */
  function SectorEnd(b: Bank, i: nat): nat
    requires WellFormed(b) && i < |b.start|
  {
    if i == Last(b) then BankEnd(b) else b.start[i + 1] - 1
  }

  predicate InBank(b: Bank, a: nat)
    requires WellFormed(b)
  {
    b.start[0] <= a <= BankEnd(b)
  }

  // ------------------------------------------------------- one bank, as planned

  /** The sector that starts at `a`, or -1. */
  ghost function SectorStartingAt(b: Bank, a: nat): (i: int)
    ensures -1 <= i < |b.start|
    ensures i >= 0 ==> b.start[i] == a
    ensures i == -1 ==> forall j | 0 <= j < |b.start| :: b.start[j] != a
  {
    if i :| 0 <= i < |b.start| && b.start[i] == a then i else -1
  }

  /** The sector that ends at `a`, or -1. */
  ghost function SectorEndingAt(b: Bank, a: nat): (i: int)
    requires WellFormed(b)
    ensures -1 <= i < |b.start|
    ensures i >= 0 ==> SectorEnd(b, i) == a
    ensures i == -1 ==> forall j | 0 <= j < |b.start| :: SectorEnd(b, j) != a
  {
    if i :| 0 <= i < |b.start| && SectorEnd(b, i) == a then i else -1
  }

  /** The address after `a`, as a 32-bit unsigned long. */
  function Next(a: nat): nat {
    if a == WORD - 1 then 0 else a + 1
  }

  datatype Step = Skip | Take(first: nat, last: nat, next: nat) | Refuse

  /** What one bank contributes to the interval [lo, hi], and where the interval goes on. */
  ghost function BankStep(b: Bank, lo: nat, hi: nat): Step
    requires b.known ==> WellFormed(b)
  {
    if !b.known then Skip
    else
      var f, l := SectorStartingAt(b, lo), SectorEndingAt(b, hi);
      if f >= 0 then
        var l' := if l < 0 && hi > BankEnd(b) then Last(b) else l;
        if l' < f then Refuse else Take(f, l', Next(SectorEnd(b, l')))
      else if b.start[0] <= lo < BankEnd(b) || l >= 0 then Refuse
      else Skip
  }

  /** The sectors planned in one bank. */
  datatype Range = Empty | Range(first: nat, last: nat)

  ghost predicate AllWellFormed(banks: seq<Bank>) {
    forall k | 0 <= k < |banks| && banks[k].known :: WellFormed(banks[k])
  }

  /** The ranges of all banks, and whether no error was met. */
  datatype Plan = Plan(ok: bool, ranges: seq<Range>)

  /** What banks `k` and up contribute; the banks before them have nothing. */
  ghost function PlanFrom(banks: seq<Bank>, k: nat, lo: nat, hi: nat): (p: Plan)
    requires k <= |banks| && AllWellFormed(banks)
    ensures |p.ranges| == |banks| && forall m | 0 <= m < k :: p.ranges[m] == Empty
    decreases |banks| - k
  {
    if k == |banks| || lo > hi then Plan(true, seq(|banks|, _ => Empty))
    else
      match BankStep(banks[k], lo, hi)
      case Refuse => Plan(false, seq(|banks|, _ => Empty))
      case Skip => PlanFrom(banks, k + 1, lo, hi)
      case Take(f, l, next) =>
        var p := PlanFrom(banks, k + 1, next, hi);
        p.(ranges := p.ranges[k := Range(f, l)])
  }

  /** Sector `s` of bank `k` is planned. */
  ghost predicate Selected(p: Plan, k: nat, s: nat) {
    k < |p.ranges| && p.ranges[k].Range? && p.ranges[k].first <= s <= p.ranges[k].last
  }

  function Count(ranges: seq<Range>): int {
    if ranges == [] then 0
    else Count(ranges[..|ranges| - 1]) +
         match ranges[|ranges| - 1] case Empty => 0 case Range(f, l) => l - f + 1
  }

  // -------------------------------------------------------- geometry lemmas

  lemma SectorsInOrder(b: Bank, i: nat, j: nat)
    requires WellFormed(b) && i < j < |b.start|
    ensures b.start[i] <= SectorEnd(b, i) < b.start[j] <= SectorEnd(b, j) <= BankEnd(b)
  {
  }

  lemma SectorBounds(b: Bank, i: nat)
    requires WellFormed(b) && i < |b.start|
    ensures b.start[0] <= b.start[i] <= SectorEnd(b, i) <= BankEnd(b) < WORD
  {
  }

  lemma StartIsUnique(b: Bank, i: nat)
    requires WellFormed(b) && i < |b.start|
    ensures SectorStartingAt(b, b.start[i]) == i && SectorEndingAt(b, SectorEnd(b, i)) == i
  {
  }

  // ------------------------------------------------------ planned sectors lie inside

  /** A bank that reaches the top of the address space, and a later one at address 0. */
  ghost predicate WrapPair(banks: seq<Bank>, i: nat, j: nat)
    requires AllWellFormed(banks)
  {
    && i < j < |banks| && banks[i].known && banks[j].known
    && BankEnd(banks[i]) == WORD - 1 && banks[j].start[0] == 0
  }

  ghost predicate NoWrapPair(banks: seq<Bank>)
    requires AllWellFormed(banks)
  {
    forall i, j :: !WrapPair(banks, i, j)
  }

  ghost predicate PlanInside(banks: seq<Bank>, p: Plan, lo: nat, hi: nat)
    requires AllWellFormed(banks) && |p.ranges| == |banks|
  {
    forall m: nat, s: nat | Selected(p, m, s) ::
      && banks[m].known && s < |banks[m].start|
      && lo <= banks[m].start[s] && SectorEnd(banks[m], s) <= hi
  }

  lemma TakeInside(b: Bank, lo: nat, hi: nat, s: nat)
    requires b.known && WellFormed(b) && lo <= hi < WORD && BankStep(b, lo, hi).Take?
    requires BankStep(b, lo, hi).first <= s <= BankStep(b, lo, hi).last
    ensures s < |b.start| && lo <= b.start[s] && SectorEnd(b, s) <= hi
    ensures BankStep(b, lo, hi).next > lo || (BankStep(b, lo, hi).next == 0 && BankEnd(b) == WORD - 1)
  {
    var f, l := BankStep(b, lo, hi).first, BankStep(b, lo, hi).last;
    SectorBounds(b, s);
    SectorBounds(b, l);
    if f < s { SectorsInOrder(b, f, s); }
    if s < l { SectorsInOrder(b, s, l); }
  }

  /** Adding a bank whose sectors lie inside keeps a plan inside. */
  lemma TakeKeepsInside(banks: seq<Bank>, k: nat, lo: nat, hi: nat, lo0: nat)
    requires AllWellFormed(banks) && k < |banks| && lo0 <= lo <= hi < WORD && BankStep(banks[k], lo, hi).Take?
    requires PlanInside(banks, PlanFrom(banks, k + 1, BankStep(banks[k], lo, hi).next, hi), lo0, hi)
    ensures PlanInside(banks, PlanFrom(banks, k, lo, hi), lo0, hi)
  {
    var t := BankStep(banks[k], lo, hi);
    var p, q := PlanFrom(banks, k, lo, hi), PlanFrom(banks, k + 1, t.next, hi);
    forall m: nat, s: nat | Selected(p, m, s)
      ensures banks[m].known && s < |banks[m].start| && lo0 <= banks[m].start[s] && SectorEnd(banks[m], s) <= hi
    {
      if m == k {
        TakeInside(banks[k], lo, hi, s);
      } else {
        assert Selected(q, m, s);
      }
    }
  }

  /** `lo` is either where the request began or beyond it; or it has wrapped to 0 and no bank is left there. */
  lemma {:induction false} PlannedInside(banks: seq<Bank>, k: nat, lo: nat, hi: nat, lo0: nat)
    requires AllWellFormed(banks) && k <= |banks| && hi < WORD
    requires lo0 <= lo || (lo == 0 && forall j | k <= j < |banks| && banks[j].known :: banks[j].start[0] != 0)
    requires NoWrapPair(banks)
    ensures PlanInside(banks, PlanFrom(banks, k, lo, hi), lo0, hi)
    decreases |banks| - k
  {
    if k < |banks| && lo <= hi {
      match BankStep(banks[k], lo, hi)
      case Refuse =>
      case Skip => PlannedInside(banks, k + 1, lo, hi, lo0);
      case Take(f, l, next) =>
        SectorBounds(banks[k], f);
        TakeInside(banks[k], lo, hi, f);
        if next == 0 {
          forall j | k + 1 <= j < |banks| && banks[j].known ensures banks[j].start[0] != 0 {
            assert !WrapPair(banks, k, j);
          }
        }
        PlannedInside(banks, k + 1, next, hi, lo0);
        TakeKeepsInside(banks, k, lo, hi, lo0);
    }
  }

  /** Banks that do not overlap. */
  ghost predicate Disjoint(banks: seq<Bank>)
    requires AllWellFormed(banks)
  {
    forall i, j | 0 <= i < j < |banks| && banks[i].known && banks[j].known ::
      BankEnd(banks[i]) < banks[j].start[0] || BankEnd(banks[j]) < banks[i].start[0]
  }

  /** A bank that does not touch the interval's ends is passed over. */
  lemma BankSkipped(b: Bank, lo: nat, hi: nat)
    requires b.known ==> WellFormed(b) && !InBank(b, lo) && !InBank(b, hi)
    ensures BankStep(b, lo, hi) == Skip
  {
  }

  /** Banks in a row that do not touch the interval's ends contribute nothing. */
  lemma {:induction false} BanksSkipped(banks: seq<Bank>, k: nat, end: nat, lo: nat, hi: nat)
    requires AllWellFormed(banks) && k <= end <= |banks| && lo <= hi
    requires forall m | k <= m < end && banks[m].known :: !InBank(banks[m], lo) && !InBank(banks[m], hi)
    ensures PlanFrom(banks, k, lo, hi) == PlanFrom(banks, end, lo, hi)
    decreases end - k
  {
    if k < end {
      BankSkipped(banks[k], lo, hi);
      BanksSkipped(banks, k + 1, end, lo, hi);
    }
  }

  /** Up to the top of the address space, an interval that starts between banks is never refused. */
  lemma {:induction false} NotRefused(banks: seq<Bank>, k: nat, lo: nat)
    requires AllWellFormed(banks) && Disjoint(banks) && k <= |banks|
    requires forall m | k <= m < |banks| && banks[m].known ::
               BankEnd(banks[m]) < WORD - 1 && !(banks[m].start[0] < lo <= BankEnd(banks[m]))
    ensures PlanFrom(banks, k, lo, WORD - 1).ok
    decreases |banks| - k
  {
    if k < |banks| && lo <= WORD - 1 {
      var b := banks[k];
      if b.known {
        var f, l := SectorStartingAt(b, lo), SectorEndingAt(b, WORD - 1);
        if l >= 0 { SectorBounds(b, l); }
        if b.start[0] == lo { StartIsUnique(b, 0); }
        if f >= 0 { SectorBounds(b, f); }
      }
      match BankStep(b, lo, WORD - 1)
      case Skip => NotRefused(banks, k + 1, lo);
      case Take(_, _, next) => NotRefused(banks, k + 1, next);
    }
  }

  lemma TakenFromZero(banks: seq<Bank>, j: nat)
    requires AllWellFormed(banks) && Disjoint(banks) && j < |banks| && banks[j].known && banks[j].start[0] == 0
    requires forall m | j <= m < |banks| && banks[m].known :: BankEnd(banks[m]) < WORD - 1
    ensures var p := PlanFrom(banks, j, 0, WORD - 1); p.ok && p.ranges[j] == Range(0, Last(banks[j]))
  {
    var b := banks[j];
    StartIsUnique(b, 0);
    var l := SectorEndingAt(b, WORD - 1);
    if l >= 0 { SectorBounds(b, l); }
    NotRefused(banks, j + 1, BankEnd(b) + 1);
  }

  /** With such a pair of banks, planning exactly the upper one also takes the one at address 0. */
  lemma {:induction false} WrapPairEscapes(banks: seq<Bank>, i: nat, j: nat)
    requires AllWellFormed(banks) && Disjoint(banks) && WrapPair(banks, i, j)
    ensures var p := PlanFrom(banks, 0, banks[i].start[0], WORD - 1);
            p.ok && Selected(p, j, 0) && banks[j].start[0] < banks[i].start[0]
  {
    var lo, hi := banks[i].start[0], WORD - 1;
    BanksSkipped(banks, 0, i, lo, hi);
    StartIsUnique(banks[i], 0);
    StartIsUnique(banks[i], Last(banks[i]));
    BanksSkipped(banks, i + 1, j, 0, hi);
    TakenFromZero(banks, j);
  }

  /** Planned sectors lie inside the requested interval, for every interval, exactly when
      no bank at address 0 follows one that ends at the top of the address space. */
  lemma {:induction false} PlansStayInside(banks: seq<Bank>)
    requires AllWellFormed(banks) && Disjoint(banks)
    ensures NoWrapPair(banks) <==>
            forall lo: nat, hi: nat | lo <= hi < WORD && PlanFrom(banks, 0, lo, hi).ok ::
              PlanInside(banks, PlanFrom(banks, 0, lo, hi), lo, hi)
  {
    if NoWrapPair(banks) {
      forall lo: nat, hi: nat | lo <= hi < WORD && PlanFrom(banks, 0, lo, hi).ok
        ensures PlanInside(banks, PlanFrom(banks, 0, lo, hi), lo, hi)
      {
        PlannedInside(banks, 0, lo, hi, lo);
      }
    } else {
      var i: nat, j: nat :| WrapPair(banks, i, j);
      WrapPairEscapes(banks, i, j);
      var p := PlanFrom(banks, 0, banks[i].start[0], WORD - 1);
      assert Selected(p, j, 0);
    }
  }
}
