/** Erasing a NOR partition: from a validated partition to the sectors of its bank. */
module MtdNor {
  import opened Machine
  import opened Flash
  import opened FlashExact
  import opened MtdParts

  /** Partition `p` was accepted for the NOR device in bank `k`. */
  ghost predicate Accepted(banks: seq<Bank>, k: nat, id: MtdId, p: Part) {
    && AllWellFormed(banks) && Disjoint(banks) && k < |banks| && banks[k].known
    && id.kind == Nor && id.geometry == Sectors(banks[k]) && ValidId(id)
    && p.offset < WORD && p.size < WORD && Validate(id, p) == Some(p)
  }

  /** First and last address of the partition. */
  function First(b: Bank, p: Part): nat
    requires WellFormed(b)
  {
    p.offset + b.start[0]
  }

  function Final(b: Bank, p: Part): int
    requires WellFormed(b)
  {
    First(b, p) + p.size - 1
  }

  /** The partition reaches the top of the address space, and a later bank is at address 0. */
  ghost predicate WrapsInto(banks: seq<Bank>, k: nat, hi: int, j: nat)
    requires AllWellFormed(banks)
  {
    hi == WORD - 1 && k < j < |banks| && banks[j].known && banks[j].start[0] == 0
  }

  /** Exactly the sectors of bank `k` that the interval meets. */
  ghost predicate OnlyIn(banks: seq<Bank>, k: nat, p: Plan, lo: nat, hi: nat)
    requires AllWellFormed(banks) && k < |banks| && banks[k].known
  {
    p.ok && forall m: nat, s: nat ::
      Selected(p, m, s) <==> m == k && s < |banks[k].start| && Meets(banks[k], s, lo, hi)
  }

  /** A validated partition begins and ends on sectors of its bank. */
  lemma PartitionSectors(banks: seq<Bank>, k: nat, id: MtdId, p: Part) returns (f: nat, l: nat)
    requires Accepted(banks, k, id, p)
    ensures var b := banks[k];
            && f <= l < |b.start| && b.start[f] == First(b, p) && SectorEnd(b, l) == Final(b, p)
            && InBank(b, First(b, p)) && InBank(b, Final(b, p)) && First(b, p) <= Final(b, p)
  {
    var b := banks[k];
    ValidatedFits(id, p);
    f :| 0 <= f < |b.start| && b.start[f] == b.start[0] + p.offset;
    if StartsSector(b, p.offset + p.size) {
      var i :| 0 <= i < |b.start| && b.start[i] == b.start[0] + (p.offset + p.size);
      l := i - 1;
    } else {
      l := Last(b);
    }
    SectorBounds(b, f);
    SectorBounds(b, l);
    if l < f { SectorsInOrder(b, l, f); }
  }

  /** The other banks hold neither end of the partition. */
  lemma OthersUntouched(banks: seq<Bank>, k: nat, m: nat, a: nat)
    requires AllWellFormed(banks) && Disjoint(banks) && k < |banks| && banks[k].known && InBank(banks[k], a)
    requires m < |banks| && m != k && banks[m].known
    ensures !InBank(banks[m], a)
  {
  }

  /** The plan takes the partition's sectors, and goes on behind it. */
  lemma PlanOfPartition(banks: seq<Bank>, k: nat, id: MtdId, p: Part) returns (f: nat, l: nat)
    requires Accepted(banks, k, id, p)
    ensures var b := banks[k];
            var lo, hi := First(b, p), Final(b, p);
            && lo <= hi < WORD && f <= l < |b.start| && b.start[f] == lo && SectorEnd(b, l) == hi
            && var rest := PlanFrom(banks, k + 1, Next(hi), hi);
               PlanFrom(banks, 0, lo, hi) == rest.(ranges := rest.ranges[k := Range(f, l)])
  {
    var b := banks[k];
    var lo, hi := First(b, p), Final(b, p);
    f, l := PartitionSectors(banks, k, id, p);
    StartIsUnique(b, f);
    StartIsUnique(b, l);
    forall m | 0 <= m < k && banks[m].known ensures !InBank(banks[m], lo) && !InBank(banks[m], hi) {
      OthersUntouched(banks, k, m, lo);
      OthersUntouched(banks, k, m, hi);
    }
    BanksSkipped(banks, 0, k, lo, hi);
  }

  /** Behind the partition nothing is planned, when no bank is waiting at address 0. */
  lemma {:induction false} NothingBehind(banks: seq<Bank>, k: nat, hi: nat)
    requires AllWellFormed(banks) && Disjoint(banks) && k < |banks| && banks[k].known
    requires InBank(banks[k], hi) && hi < WORD && forall j: nat :: !WrapsInto(banks, k, hi, j)
    ensures PlanFrom(banks, k + 1, Next(hi), hi) == Plan(true, seq(|banks|, _ => Empty))
  {
    if hi == WORD - 1 {
      forall m | k + 1 <= m < |banks| && banks[m].known ensures !InBank(banks[m], 0) && !InBank(banks[m], hi) {
        OthersUntouched(banks, k, m, hi);
        assert !WrapsInto(banks, k, hi, m);
      }
      BanksSkipped(banks, k + 1, |banks|, 0, hi);
    }
  }

  /** With a bank waiting at address 0, it is taken as well. */
  lemma {:induction false} BankBehind(banks: seq<Bank>, k: nat, j: nat)
    requires AllWellFormed(banks) && Disjoint(banks) && k < |banks| && banks[k].known
    requires BankEnd(banks[k]) == WORD - 1 && WrapsInto(banks, k, WORD - 1, j)
    ensures Selected(PlanFrom(banks, k + 1, 0, WORD - 1), j, 0)
  {
    forall m | 0 <= m < |banks| && m != k && banks[m].known ensures BankEnd(banks[m]) < WORD - 1 {
      OthersUntouched(banks, k, m, WORD - 1);
    }
    forall m | k + 1 <= m < j && banks[m].known ensures !InBank(banks[m], 0) && !InBank(banks[m], WORD - 1) {
      OthersUntouched(banks, j, m, 0);
    }
    BanksSkipped(banks, k + 1, j, 0, WORD - 1);
    TakenFromZero(banks, j);
  }

  /** A partition that part_validate accepted is planned exactly, in its own bank and without error, unless it ends
      at the top of the address space and a later bank starts at address 0; then that bank is planned too. */
  lemma {:induction false} PartitionIsErasedExactly(banks: seq<Bank>, k: nat, id: MtdId, p: Part)
    requires Accepted(banks, k, id, p)
    ensures var lo, hi := First(banks[k], p), Final(banks[k], p);
            && lo <= hi
            && (OnlyIn(banks, k, PlanFrom(banks, 0, lo, hi), lo, hi) <==> forall j: nat :: !WrapsInto(banks, k, hi, j))
  {
    var b := banks[k];
    var f, l := PlanOfPartition(banks, k, id, p);
    var lo, hi := First(b, p), Final(b, p);
    var plan, rest := PlanFrom(banks, 0, lo, hi), PlanFrom(banks, k + 1, Next(hi), hi);
    SectorBounds(b, f);
    SectorBounds(b, l);
    if forall j: nat :: !WrapsInto(banks, k, hi, j) {
      NothingBehind(banks, k, hi);
      forall m: nat, s: nat
        ensures Selected(plan, m, s) <==> m == k && s < |b.start| && Meets(b, s, lo, hi)
      {
        if s < |b.start| { SectorRange(b, f, l, s); }
      }
    } else {
      var j: nat :| WrapsInto(banks, k, hi, j);
      BankBehind(banks, k, j);
      assert Selected(plan, j, 0) by { assert Selected(rest, j, 0); }
    }
  }

  /** The address interval that the partition branch of the erase and protect commands builds. */
  method PartitionInterval(banks: seq<Bank>, k: nat, ghost id: MtdId, p: Part) returns (addrFirst: nat, addrLast: nat)
    requires Accepted(banks, k, id, p) && forall j: nat :: !WrapsInto(banks, k, Final(banks[k], p), j)
    ensures OnlyIn(banks, k, PlanFrom(banks, 0, addrFirst, addrLast), addrFirst, addrLast)
    ensures addrFirst == First(banks[k], p) && addrLast == Final(banks[k], p)
  {
    IntervalIsExact(banks, k, id, p);
    addrFirst := p.offset + banks[k].start[0];
    addrLast := addrFirst + p.size - 1;
  }

  lemma {:induction false} IntervalIsExact(banks: seq<Bank>, k: nat, id: MtdId, p: Part)
    requires Accepted(banks, k, id, p) && forall j: nat :: !WrapsInto(banks, k, Final(banks[k], p), j)
    ensures 0 <= Final(banks[k], p) == p.offset + banks[k].start[0] + p.size - 1
    ensures First(banks[k], p) == p.offset + banks[k].start[0]
    ensures OnlyIn(banks, k, PlanFrom(banks, 0, First(banks[k], p), Final(banks[k], p)), First(banks[k], p), Final(banks[k], p))
  {
    PartitionIsErasedExactly(banks, k, id, p);
  }
}
