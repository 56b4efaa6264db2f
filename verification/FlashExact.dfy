/** Planning on banks in ascending order: exactly the sectors of the interval. */
module FlashExact {
  import opened Machine
  import opened Flash

  ghost predicate Ascending(banks: seq<Bank>)
    requires AllWellFormed(banks)
  {
    forall i, j | 0 <= i < j < |banks| && banks[i].known && banks[j].known ::
      BankEnd(banks[i]) < banks[j].start[0]
  }

  /** Address `a` lies in bank `m`, one of the banks `k` and up. */
  ghost predicate Holds(banks: seq<Bank>, k: nat, m: nat, a: nat)
    requires AllWellFormed(banks)
  {
    k <= m < |banks| && banks[m].known && InBank(banks[m], a)
  }

  ghost predicate InFlash(banks: seq<Bank>, k: nat, a: nat)
    requires AllWellFormed(banks)
  {
    exists m: nat :: Holds(banks, k, m, a)
  }

  ghost predicate Covered(banks: seq<Bank>, k: nat, lo: nat, hi: nat)
    requires AllWellFormed(banks)
  {
    forall a: nat | lo <= a <= hi :: InFlash(banks, k, a)
  }

  /** Sector `s` of bank `m`, one of the banks `k` and up. */
  ghost predicate Sector(banks: seq<Bank>, k: nat, m: nat, s: nat) {
    k <= m < |banks| && banks[m].known && s < |banks[m].start|
  }

  ghost predicate IsStart(banks: seq<Bank>, k: nat, a: nat) {
    exists m: nat, s: nat :: Sector(banks, k, m, s) && banks[m].start[s] == a
  }

  ghost predicate IsEnd(banks: seq<Bank>, k: nat, a: nat)
    requires AllWellFormed(banks)
  {
    exists m: nat, s: nat :: Sector(banks, k, m, s) && SectorEnd(banks[m], s) == a
  }

  ghost predicate Meets(b: Bank, s: nat, lo: nat, hi: nat)
    requires WellFormed(b) && s < |b.start|
  {
    b.start[s] <= hi && lo <= SectorEnd(b, s)
  }

  /** No error, and the planned sectors are exactly those that meet the interval. */
  ghost predicate Exact(banks: seq<Bank>, k: nat, p: Plan, lo: nat, hi: nat)
    requires AllWellFormed(banks)
  {
    p.ok && forall m: nat, s: nat :: Selected(p, m, s) <==> Sector(banks, k, m, s) && Meets(banks[m], s, lo, hi)
  }

  /** Between two sector ends, meeting the interval is lying between its sectors. */
  lemma SectorRange(b: Bank, f: nat, l: nat, s: nat)
    requires WellFormed(b) && f <= l < |b.start| && s < |b.start|
    ensures f <= s <= l <==> Meets(b, s, b.start[f], SectorEnd(b, l))
  {
  }

  /** A bank below the interval. */
  lemma BankBelow(banks: seq<Bank>, k: nat, lo: nat, hi: nat)
    requires AllWellFormed(banks) && Ascending(banks) && k < |banks| && lo <= hi
    requires Covered(banks, k, lo, hi) && !Holds(banks, k, k, lo)
    ensures BankStep(banks[k], lo, hi) == Skip && Covered(banks, k + 1, lo, hi)
    ensures banks[k].known ==> BankEnd(banks[k]) < lo
    ensures IsStart(banks, k, lo) ==> IsStart(banks, k + 1, lo)
    ensures IsEnd(banks, k, hi) <==> IsEnd(banks, k + 1, hi)
  {
    var b := banks[k];
    assert InFlash(banks, k, lo);
    var m: nat :| Holds(banks, k, m, lo);
    if b.known { BankSkipped(b, lo, hi); }
    var k1 := k + 1;
    forall a: nat | lo <= a <= hi ensures InFlash(banks, k1, a) {
      assert InFlash(banks, k, a);
      var m: nat :| Holds(banks, k, m, a);
      assert Holds(banks, k + 1, m, a);
    }
    forall m: nat, s: nat | Sector(banks, k, m, s) && m == k
      ensures banks[m].start[s] != lo && SectorEnd(banks[m], s) != hi
    {
      SectorBounds(b, s);
    }
    WeakenSector(banks, k);
  }

  lemma WeakenSector(banks: seq<Bank>, k: nat)
    ensures forall m: nat, s: nat :: Sector(banks, k, m, s) && m != k <==> Sector(banks, k + 1, m, s)
  {
  }

  lemma ExactBelow(banks: seq<Bank>, k: nat, lo: nat, hi: nat)
    requires AllWellFormed(banks) && k < |banks| && lo <= hi
    requires BankStep(banks[k], lo, hi) == Skip && (banks[k].known ==> BankEnd(banks[k]) < lo)
    requires Exact(banks, k + 1, PlanFrom(banks, k + 1, lo, hi), lo, hi)
    ensures Exact(banks, k, PlanFrom(banks, k, lo, hi), lo, hi)
  {
    forall m: nat, s: nat | Sector(banks, k, m, s) && m == k ensures !Meets(banks[m], s, lo, hi) {
      SectorBounds(banks[k], s);
    }
    WeakenSector(banks, k);
  }

  /** The interval begins at sector `f` of bank `k`. */
  lemma StartsHere(banks: seq<Bank>, k: nat, lo: nat) returns (f: nat)
    requires AllWellFormed(banks) && Ascending(banks) && k < |banks|
    requires Holds(banks, k, k, lo) && IsStart(banks, k, lo)
    ensures f < |banks[k].start| && banks[k].start[f] == lo && SectorStartingAt(banks[k], lo) == f
  {
    var m: nat, s: nat :| Sector(banks, k, m, s) && banks[m].start[s] == lo;
    SectorBounds(banks[m], s);
    assert m == k;
    StartIsUnique(banks[k], s);
    return s;
  }

  lemma EndsHere(banks: seq<Bank>, k: nat, hi: nat) returns (l: nat)
    requires AllWellFormed(banks) && Ascending(banks) && k < |banks|
    requires Holds(banks, k, k, hi) && IsEnd(banks, k, hi)
    ensures l < |banks[k].start| && SectorEnd(banks[k], l) == hi && SectorEndingAt(banks[k], hi) == l
  {
    var m: nat, s: nat :| Sector(banks, k, m, s) && SectorEnd(banks[m], s) == hi;
    SectorBounds(banks[m], s);
    assert m == k;
    StartIsUnique(banks[k], s);
    return s;
  }

  /** After a bank that the interval ends in, nothing more is planned. */
  lemma {:induction false} NothingAfter(banks: seq<Bank>, k: nat, hi: nat)
    requires AllWellFormed(banks) && Ascending(banks) && k < |banks| && Holds(banks, k, k, hi) && hi < WORD
    ensures var q := PlanFrom(banks, k + 1, Next(hi), hi);
            q == Plan(true, seq(|banks|, _ => Empty))
  {
    if hi == WORD - 1 {
      forall m | k + 1 <= m < |banks| && banks[m].known
        ensures !InBank(banks[m], 0) && !InBank(banks[m], hi)
      {
        assert BankEnd(banks[k]) < banks[m].start[0];
      }
      BanksSkipped(banks, k + 1, |banks|, 0, hi);
    }
  }

  lemma TakesToEnd(banks: seq<Bank>, k: nat, lo: nat, hi: nat) returns (f: nat, l: nat)
    requires AllWellFormed(banks) && Ascending(banks) && k < |banks| && lo <= hi
    requires Holds(banks, k, k, lo) && Holds(banks, k, k, hi) && IsStart(banks, k, lo) && IsEnd(banks, k, hi)
    ensures f <= l < |banks[k].start| && banks[k].start[f] == lo && SectorEnd(banks[k], l) == hi
    ensures BankStep(banks[k], lo, hi) == Take(f, l, Next(hi))
  {
    f := StartsHere(banks, k, lo);
    l := EndsHere(banks, k, hi);
    if l < f { SectorsInOrder(banks[k], l, f); }
  }

  lemma {:induction false} ExactLast(banks: seq<Bank>, k: nat, lo: nat, hi: nat)
    requires AllWellFormed(banks) && Ascending(banks) && k < |banks| && lo <= hi < WORD
    requires Holds(banks, k, k, lo) && Holds(banks, k, k, hi) && IsStart(banks, k, lo) && IsEnd(banks, k, hi)
    ensures Exact(banks, k, PlanFrom(banks, k, lo, hi), lo, hi)
  {
    var f, l := TakesToEnd(banks, k, lo, hi);
    NothingAfter(banks, k, hi);
    var p := PlanFrom(banks, k, lo, hi);
    assert p.ok && p.ranges == seq(|banks|, _ => Empty)[k := Range(f, l)];
    ExactOneRange(banks, k, p, f, l);
  }

  lemma ExactOneRange(banks: seq<Bank>, k: nat, p: Plan, f: nat, l: nat)
    requires AllWellFormed(banks) && Ascending(banks) && k < |banks| && banks[k].known && f <= l < |banks[k].start|
    requires p.ok && p.ranges == seq(|banks|, _ => Empty)[k := Range(f, l)]
    ensures Exact(banks, k, p, banks[k].start[f], SectorEnd(banks[k], l))
  {
    var b := banks[k];
    SectorBounds(b, l);
    forall m: nat, s: nat
      ensures Selected(p, m, s) <==> Sector(banks, k, m, s) && Meets(banks[m], s, b.start[f], SectorEnd(b, l))
    {
      if Sector(banks, k, m, s) {
        SectorBounds(banks[m], s);
        if m == k { SectorRange(b, f, l, s); }
      }
    }
  }

  /** The interval goes on beyond bank `k`, which is taken from its sector `f` to its end. */
  lemma GoesOn(banks: seq<Bank>, k: nat, lo: nat, hi: nat) returns (f: nat)
    requires AllWellFormed(banks) && Ascending(banks) && k < |banks| && lo <= hi < WORD
    requires Holds(banks, k, k, lo) && IsStart(banks, k, lo) && Covered(banks, k, lo, hi) && hi > BankEnd(banks[k])
    ensures f < |banks[k].start| && banks[k].start[f] == lo
    ensures BankStep(banks[k], lo, hi) == Take(f, Last(banks[k]), BankEnd(banks[k]) + 1)
    ensures Covered(banks, k + 1, BankEnd(banks[k]) + 1, hi) && IsStart(banks, k + 1, BankEnd(banks[k]) + 1)
    ensures IsEnd(banks, k, hi) <==> IsEnd(banks, k + 1, hi)
  {
    var b, next := banks[k], BankEnd(banks[k]) + 1;
    f := StartsHere(banks, k, lo);
    var l := SectorEndingAt(b, hi);
    if l >= 0 { SectorBounds(b, l); }
    var k1 := k + 1;
    forall a: nat | next <= a <= hi ensures InFlash(banks, k1, a) {
      assert InFlash(banks, k, a);
      var m: nat :| Holds(banks, k, m, a);
      assert Holds(banks, k + 1, m, a);
    }
    assert InFlash(banks, k + 1, next);
    var m: nat :| Holds(banks, k + 1, m, next);
    assert Sector(banks, k + 1, m, 0) && banks[m].start[0] == next;
    forall s: nat | Sector(banks, k, k, s) ensures SectorEnd(b, s) != hi { SectorBounds(b, s); }
    WeakenSector(banks, k);
  }

  lemma ExactJoin(banks: seq<Bank>, k: nat, f: nat, lo: nat, hi: nat)
    requires AllWellFormed(banks) && Ascending(banks) && k < |banks| && lo <= hi < WORD && banks[k].known
    requires f < |banks[k].start| && banks[k].start[f] == lo && hi > BankEnd(banks[k])
    requires BankStep(banks[k], lo, hi) == Take(f, Last(banks[k]), BankEnd(banks[k]) + 1)
    requires var n := BankEnd(banks[k]) + 1; Exact(banks, k + 1, PlanFrom(banks, k + 1, n, hi), n, hi)
    ensures Exact(banks, k, PlanFrom(banks, k, lo, hi), lo, hi)
  {
    var b, next := banks[k], BankEnd(banks[k]) + 1;
    var p, q := PlanFrom(banks, k, lo, hi), PlanFrom(banks, k + 1, next, hi);
    SectorBounds(b, f);
    forall m: nat, s: nat ensures Selected(p, m, s) <==> Sector(banks, k, m, s) && Meets(banks[m], s, lo, hi) {
      if m != k { assert Selected(p, m, s) <==> Selected(q, m, s); }
      if Sector(banks, k, m, s) {
        SectorBounds(banks[m], s);
        if m == k { SectorRange(b, f, Last(b), s); }
      }
    }
  }

  lemma SomeBank(banks: seq<Bank>, k: nat, lo: nat, hi: nat)
    requires AllWellFormed(banks) && lo <= hi && Covered(banks, k, lo, hi)
    ensures k < |banks|
  {
    assert InFlash(banks, k, lo);
  }

  /** An interval inside flash that begins and ends on sector boundaries is planned exactly. */
  lemma {:induction false} AlignedIsExact(banks: seq<Bank>, k: nat, lo: nat, hi: nat)
    requires AllWellFormed(banks) && Ascending(banks) && k <= |banks| && lo <= hi < WORD
    requires Covered(banks, k, lo, hi) && IsStart(banks, k, lo) && IsEnd(banks, k, hi)
    ensures Exact(banks, k, PlanFrom(banks, k, lo, hi), lo, hi)
    decreases |banks| - k
  {
    SomeBank(banks, k, lo, hi);
    if !Holds(banks, k, k, lo) {
      BankBelow(banks, k, lo, hi);
      AlignedIsExact(banks, k + 1, lo, hi);
      ExactBelow(banks, k, lo, hi);
    } else if hi <= BankEnd(banks[k]) {
      ExactLast(banks, k, lo, hi);
    } else {
      var f := GoesOn(banks, k, lo, hi);
      AlignedIsExact(banks, k + 1, BankEnd(banks[k]) + 1, hi);
      ExactJoin(banks, k, f, lo, hi);
    }
  }

  lemma BoundaryFound(banks: seq<Bank>, k: nat, lo: nat, hi: nat)
    requires AllWellFormed(banks) && k < |banks|
    ensures banks[k].known && SectorStartingAt(banks[k], lo) >= 0 ==> IsStart(banks, k, lo)
    ensures banks[k].known && SectorEndingAt(banks[k], hi) >= 0 ==> IsEnd(banks, k, hi)
  {
  }

  /** Without a sector that starts there, nothing is planned. */
  lemma {:induction false} NoStartNoPlan(banks: seq<Bank>, k: nat, lo: nat, hi: nat)
    requires AllWellFormed(banks) && k <= |banks| && !IsStart(banks, k, lo)
    ensures forall m | 0 <= m < |banks| :: PlanFrom(banks, k, lo, hi).ranges[m] == Empty
    decreases |banks| - k
  {
    if k < |banks| && lo <= hi {
      BoundaryFound(banks, k, lo, hi);
      WeakenSector(banks, k);
      NoStartNoPlan(banks, k + 1, lo, hi);
    }
  }

  lemma EndRefused(banks: seq<Bank>, k: nat, lo: nat, hi: nat)
    requires AllWellFormed(banks) && Ascending(banks) && k < |banks|
    requires Holds(banks, k, k, lo) && Holds(banks, k, k, hi) && IsStart(banks, k, lo) && !IsEnd(banks, k, hi)
    ensures BankStep(banks[k], lo, hi) == Refuse
  {
  }

  /** An end that is no sector end is reported. */
  lemma {:induction false} NoEndNoPlan(banks: seq<Bank>, k: nat, lo: nat, hi: nat)
    requires AllWellFormed(banks) && Ascending(banks) && k <= |banks| && lo <= hi < WORD
    requires Covered(banks, k, lo, hi) && IsStart(banks, k, lo) && !IsEnd(banks, k, hi)
    ensures !PlanFrom(banks, k, lo, hi).ok
    decreases |banks| - k
  {
    SomeBank(banks, k, lo, hi);
    if !Holds(banks, k, k, lo) {
      BankBelow(banks, k, lo, hi);
      NoEndNoPlan(banks, k + 1, lo, hi);
    } else if hi <= BankEnd(banks[k]) {
      EndRefused(banks, k, lo, hi);
    } else {
      var f := GoesOn(banks, k, lo, hi);
      NoEndNoPlan(banks, k + 1, BankEnd(banks[k]) + 1, hi);
    }
  }

  /** The last address of a bank. */
  ghost predicate IsBankEnd(banks: seq<Bank>, k: nat, a: nat)
    requires AllWellFormed(banks)
  {
    exists m: nat :: Holds(banks, k, m, a) && BankEnd(banks[m]) == a
  }

  lemma EndOfBank(banks: seq<Bank>, k: nat, lo: nat, hi: nat)
    requires AllWellFormed(banks) && k < |banks| && banks[k].known
    ensures SectorEndingAt(banks[k], hi) >= 0 || IsEnd(banks, k + 1, hi) <==> IsEnd(banks, k, hi)
  {
    WeakenSector(banks, k);
    if s: nat :| s < |banks[k].start| && SectorEnd(banks[k], s) == hi {
      assert Sector(banks, k, k, s);
    }
    if SectorEndingAt(banks[k], hi) >= 0 {
      assert Sector(banks, k, k, SectorEndingAt(banks[k], hi));
    }
  }

  /** Above the start of the interval, only an end on a sector is an error. */
  lemma {:induction false} StartIsBelow(banks: seq<Bank>, k: nat, lo: nat, hi: nat)
    requires AllWellFormed(banks) && k <= |banks| && lo <= hi
    requires forall m | k <= m < |banks| && banks[m].known :: lo < banks[m].start[0]
    ensures PlanFrom(banks, k, lo, hi).ok <==> !IsEnd(banks, k, hi)
    decreases |banks| - k
  {
    if k < |banks| {
      WeakenSector(banks, k);
      if banks[k].known {
        EndOfBank(banks, k, lo, hi);
        if SectorStartingAt(banks[k], lo) >= 0 { SectorBounds(banks[k], SectorStartingAt(banks[k], lo)); }
      }
      StartIsBelow(banks, k + 1, lo, hi);
    }
  }

  lemma {:induction false} NoStartRefused(banks: seq<Bank>, k: nat, lo: nat, hi: nat)
    requires AllWellFormed(banks) && Ascending(banks) && k <= |banks| && lo <= hi < WORD
    requires Covered(banks, k, lo, hi) && !IsStart(banks, k, lo)
    ensures PlanFrom(banks, k, lo, hi).ok <==> IsBankEnd(banks, k, lo) && !IsEnd(banks, k, hi)
    decreases |banks| - k
  {
    SomeBank(banks, k, lo, hi);
    BoundaryFound(banks, k, lo, hi);
    if !Holds(banks, k, k, lo) {
      BankBelow(banks, k, lo, hi);
      WeakenSector(banks, k);
      NoStartRefused(banks, k + 1, lo, hi);
      BankEndBelow(banks, k, lo);
    } else {
      OnlyBank(banks, k, lo);
      EndOfBank(banks, k, lo, hi);
      if BankEnd(banks[k]) == lo { StartIsBelow(banks, k + 1, lo, hi); }
    }
  }

  lemma BankEndBelow(banks: seq<Bank>, k: nat, a: nat)
    requires AllWellFormed(banks) && k < |banks| && !Holds(banks, k, k, a)
    ensures IsBankEnd(banks, k, a) <==> IsBankEnd(banks, k + 1, a)
  {
    forall m: nat ensures Holds(banks, k, m, a) <==> Holds(banks, k + 1, m, a) {
    }
  }

  lemma OnlyBank(banks: seq<Bank>, k: nat, a: nat)
    requires AllWellFormed(banks) && Ascending(banks) && Holds(banks, k, k, a)
    ensures IsBankEnd(banks, k, a) <==> BankEnd(banks[k]) == a
    ensures forall m | k < m < |banks| && banks[m].known :: a < banks[m].start[0]
  {
    forall m: nat | Holds(banks, k, m, a) ensures m == k {
    }
  }

  /** For an interval inside flash on ascending banks, an error is reported exactly when it is not made of whole
      sectors, except that one which starts at the last address of a bank and ends inside a sector is passed over. */
  lemma RefusalIsExact(banks: seq<Bank>, lo: nat, hi: nat)
    requires AllWellFormed(banks) && Ascending(banks) && lo <= hi < WORD && Covered(banks, 0, lo, hi)
    ensures PlanFrom(banks, 0, lo, hi).ok <==>
            if IsStart(banks, 0, lo) then IsEnd(banks, 0, hi) else IsBankEnd(banks, 0, lo) && !IsEnd(banks, 0, hi)
  {
    if !IsStart(banks, 0, lo) {
      NoStartRefused(banks, 0, lo, hi);
    } else if !IsEnd(banks, 0, hi) {
      NoEndNoPlan(banks, 0, lo, hi);
    } else {
      AlignedIsExact(banks, 0, lo, hi);
    }
  }

  ghost predicate PlansSomething(p: Plan) {
    p.ok && exists m | 0 <= m < |p.ranges| :: p.ranges[m].Range?
  }

  /** On ascending banks, for an interval inside flash: something is planned without error exactly when
      the interval is made of whole sectors, and then precisely those sectors are planned. */
  lemma {:induction false} PlanningIsExact(banks: seq<Bank>, lo: nat, hi: nat)
    requires AllWellFormed(banks) && Ascending(banks) && lo <= hi < WORD && Covered(banks, 0, lo, hi)
    ensures var p := PlanFrom(banks, 0, lo, hi);
            && (PlansSomething(p) <==> IsStart(banks, 0, lo) && IsEnd(banks, 0, hi))
            && (PlansSomething(p) ==> Exact(banks, 0, p, lo, hi))
  {
    var p := PlanFrom(banks, 0, lo, hi);
    if !IsStart(banks, 0, lo) {
      NoStartNoPlan(banks, 0, lo, hi);
    } else if !IsEnd(banks, 0, hi) {
      NoEndNoPlan(banks, 0, lo, hi);
    } else {
      AlignedIsExact(banks, 0, lo, hi);
      var m: nat, s: nat :| Sector(banks, 0, m, s) && banks[m].start[s] == lo;
      SectorBounds(banks[m], s);
      assert Selected(p, m, s);
      assert p.ranges[m].Range?;
    }
  }

  // ---------------------------------------------------------- counting sectors

  /** The planned sectors of one bank, and of all. */
  function SectorsFrom(k: nat, first: nat, last: nat): seq<(nat, nat)>
    decreases last + 1 - first
  {
    if first > last then [] else [(k, first)] + SectorsFrom(k, first + 1, last)
  }

  function Planned(ranges: seq<Range>): seq<(nat, nat)> {
    if ranges == [] then []
    else
      var k := |ranges| - 1;
      Planned(ranges[..k]) + match ranges[k] case Empty => [] case Range(f, l) => SectorsFrom(k, f, l)
  }

  lemma {:induction false} SectorsAre(k: nat, first: nat, last: nat)
    requires first <= last + 1
    ensures |SectorsFrom(k, first, last)| == last - first + 1
    ensures forall i | 0 <= i < |SectorsFrom(k, first, last)| :: SectorsFrom(k, first, last)[i] == (k, first + i)
    decreases last + 1 - first
  {
    if first <= last { SectorsAre(k, first + 1, last); }
  }

  ghost predicate InOrder(ranges: seq<Range>) {
    forall k | 0 <= k < |ranges| && ranges[k].Range? :: ranges[k].first <= ranges[k].last
  }

  /** The count is the number of planned sectors: they can be listed without repetition. */
  lemma {:induction false} CountIsPlanned(ranges: seq<Range>)
    requires InOrder(ranges)
    ensures |Planned(ranges)| == Count(ranges)
    ensures forall k: nat, s: nat :: (k, s) in Planned(ranges) <==> Selected(Plan(true, ranges), k, s)
    ensures forall i, j | 0 <= i < j < |Planned(ranges)| :: Planned(ranges)[i] != Planned(ranges)[j]
  {
    if ranges != [] {
      var k, front := |ranges| - 1, ranges[..|ranges| - 1];
      CountIsPlanned(front);
      if ranges[k].Range? { SectorsAre(k, ranges[k].first, ranges[k].last); }
      forall m: nat, s: nat ensures (m, s) in Planned(ranges) <==> Selected(Plan(true, ranges), m, s) {
        assert m < k ==> (Selected(Plan(true, ranges), m, s) <==> Selected(Plan(true, front), m, s));
        if ranges[k].Range? { SectorListed(k, ranges[k].first, ranges[k].last, m, s); }
      }
    }
  }

  lemma SectorListed(k: nat, first: nat, last: nat, m: nat, s: nat)
    requires first <= last
    ensures (m, s) in SectorsFrom(k, first, last) <==> m == k && first <= s <= last
  {
    SectorsAre(k, first, last);
    if m == k && first <= s <= last { assert SectorsFrom(k, first, last)[s - first] == (k, s); }
  }
}
