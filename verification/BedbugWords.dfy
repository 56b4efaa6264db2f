/** Branch instructions as 32-bit numbers: the fields and codes of the architecture's formats, and where the
    branches to the link and count registers lead. */
module BedbugWords {
  import opened Machine
  import opened BedbugFields
  import opened BedbugBranch

  // -------------------------------------------------------- bits and numbers

  lemma {:induction false} NumberConcat(a: Bits, b: Bits)
    ensures Number(a + b) == Number(a) + Pow2(|a|) * Number(b)
    decreases a
  {
    if a == [] {
      assert a + b == b;
    } else {
      assert (a + b)[1..] == a[1..] + b && (a + b)[0] == a[0];
      NumberConcat(a[1..], b);
      Doubled(Number(a[1..]), Pow2(|a| - 1), Number(b));
    }
  }

  lemma Doubled(x: nat, p: nat, n: nat)
    ensures 2 * (x + p * n) == 2 * x + (2 * p) * n
  {
  }

  lemma {:induction false} NumberOfZeros(n: nat)
    ensures Number(Zeros(n)) == 0
  {
    if n > 0 {
      assert Zeros(n)[1..] == Zeros(n - 1);
      NumberOfZeros(n - 1);
    }
  }

  lemma {:induction false} NumberInjective(a: Bits, b: Bits)
    requires |a| == |b| && Number(a) == Number(b)
    ensures a == b
    decreases a
  {
    if a != [] {
      NumberInjective(a[1..], b[1..]);
      assert a == [a[0]] + a[1..] && b == [b[0]] + b[1..];
    }
  }

  /** Taking a field out is shifting and masking. */
  lemma ExtractIsShift(o: Operand, w: Bits)
    requires OperandOk(o) && |w| == SIZE
    ensures Extract(o, w) == Number(w) / Pow2(o.shift) % Pow2(o.bits)
  {
    var low, field, high := w[..o.shift], w[o.shift..o.shift + o.bits], w[o.shift + o.bits..];
    assert w == low + (field + high);
    NumberConcat(low, field + high);
    NumberConcat(field, high);
    NumberBound(low);
    NumberBound(field);
    ModUnique(Number(w), Pow2(o.shift), Number(field + high), Number(low));
    ModUnique(Number(field + high), Pow2(o.bits), Number(high), Number(field));
  }

  // ------------------------------------------------------------- the formats

  lemma Shifts()
    ensures Pow2(1) == 2 && Pow2(2) == 4 && Pow2(5) == 32 && Pow2(14) == 0x4000 && Pow2(16) == 0x1_0000
    ensures Pow2(21) == 0x20_0000 && Pow2(24) == 0x100_0000 && Pow2(26) == 0x400_0000 && Pow2(11) == 0x800 && Pow2(6) == 64
  {
    assert Pow2(5) == 32;
    Pow2Sum(5, 6);
    Pow2Sum(5, 11);
    Pow2Sum(5, 16);
    Pow2Sum(5, 21);
    Pow2Sum(3, 11);
    Pow2Sum(3, 21);
  }

  /** Where the I, B and XL forms keep their operands. */
  lemma FieldsOfForms(w: Bits)
    requires |w| == SIZE
    ensures Extract(BO, w) == Number(w) / 0x20_0000 % 32 && Extract(BI, w) == Number(w) / 0x1_0000 % 32
    ensures Extract(BD, w) == Number(w) / 4 % 0x4000 && Extract(LI, w) == Number(w) / 4 % 0x100_0000
    ensures Extract(AA, w) == Number(w) / 2 % 2 && Extract(LK, w) == Number(w) % 2
  {
    Shifts();
    ExtractIsShift(BO, w);
    ExtractIsShift(BI, w);
    ExtractIsShift(BD, w);
    ExtractIsShift(LI, w);
    ExtractIsShift(AA, w);
    ExtractIsShift(LK, w);
  }

  lemma ThenZeros(a: Bits, n: nat)
    ensures Number(a + Zeros(n)) == Number(a) && |a + Zeros(n)| == |a| + n
  {
    NumberOfZeros(n);
    NumberConcat(a, Zeros(n));
  }

  function Bit(b: bool): nat { if b then 1 else 0 }

  lemma LowSix(n: nat)
    requires n < 64
    ensures Number(LowBits(n, 6)) == n
  {
    Shifts();
    LowAll(n, 6);
  }

  lemma LowAll(n: nat, width: nat)
    requires n < Pow2(width)
    ensures Number(LowBits(n, width)) == n
  {
    NumberOfLowBits(n, width);
    ModUnique(n, Pow2(width), 0, n);
  }

  lemma NumberStep(b: Bits)
    requires b != []
    ensures Number(b) == Bit(b[0]) + 2 * Number(b[1..])
  {
  }

  lemma TwoBits(x: bool, y: bool)
    ensures Number([x, y]) == Bit(x) + 2 * Bit(y)
  {
    NumberStep([x, y]);
    NumberStep([y]);
    assert [x, y][1..] == [y] && [y][1..] == [];
  }

  /** The codes of b and bc with their variants. */
  lemma BranchCodes(primary: nat, aa: bool, lk: bool)
    requires primary < 64
    ensures Number(BranchCode(primary, aa, lk)) == primary * 0x400_0000 + 2 * Bit(aa) + Bit(lk)
  {
    var a := [lk, aa] + Zeros(24);
    Shifts();
    ThenZeros([lk, aa], 24);
    TwoBits(lk, aa);
    LowSix(primary);
    NumberConcat(a, LowBits(primary, 6));
  }

  /** The codes of bclr and bcctr. */
  lemma RegisterCodes(xo: nat, lk: bool)
    requires xo < 1024
    ensures Number(RegisterCode(xo, lk)) == 19 * 0x400_0000 + 2 * xo + Bit(lk)
  {
    var a := [lk] + LowBits(xo, 10);
    LowEleven(xo, lk);
    var b := a + Zeros(15);
    ThenZeros(a, 15);
    Shifts();
    LowSix(19);
    NumberConcat(b, LowBits(19, 6));
  }

  lemma LowEleven(xo: nat, lk: bool)
    requires xo < 1024
    ensures Number([lk] + LowBits(xo, 10)) == 2 * xo + Bit(lk)
  {
    assert Pow2(10) == 1024 by { Shifts(); Pow2Sum(5, 5); }
    OneThenLow(xo, lk, 10);
  }

  lemma OneThenLow(n: nat, b: bool, width: nat)
    requires n < Pow2(width)
    ensures Number([b] + LowBits(n, width)) == 2 * n + Bit(b)
  {
    NumberOfLowBits(n, width);
    ModUnique(n, Pow2(width), 0, n);
    assert ([b] + LowBits(n, width))[1..] == LowBits(n, width);
  }

  // -------------------------------------------------- link and count register

  lemma SameCode(a: Bits, b: Bits)
    requires |a| == |b|
    ensures a == b <==> Number(a) == Number(b)
  {
    if Number(a) == Number(b) { NumberInjective(a, b); }
  }

  /** The codes that a code is compared with, as numbers. */
  lemma ComparedWith(aa: bool, lk: bool) returns (bc: Bits, b: Bits, ctr: Bits, lr: Bits)
    ensures |bc| == |b| == |ctr| == |lr| == SIZE
    ensures bc == BranchCode(16, aa, lk) && b == BranchCode(18, aa, lk)
    ensures ctr == RegisterCode(528, lk) && lr == RegisterCode(16, lk)
    ensures Number(bc) == 0x4000_0000 + 2 * Bit(aa) + Bit(lk) && Number(b) == 0x4800_0000 + 2 * Bit(aa) + Bit(lk)
    ensures Number(ctr) == 0x4C00_0420 + Bit(lk) && Number(lr) == 0x4C00_0020 + Bit(lk)
  {
    bc, b, ctr, lr := BranchCode(16, aa, lk), BranchCode(18, aa, lk), RegisterCode(528, lk), RegisterCode(16, lk);
    BranchCodes(16, aa, lk);
    BranchCodes(18, aa, lk);
    RegisterCodes(528, lk);
    RegisterCodes(16, lk);
  }

  /** The instructions that find_next_address tells apart, by the architecture's codes: bc, b, bcctr and bclr. */
  function FormOfNumber(n: nat): Form {
    if 0x4000_0000 <= n <= 0x4000_0003 then BcForm
    else if 0x4800_0000 <= n <= 0x4800_0003 then BForm
    else if n == 0x4C00_0420 || n == 0x4C00_0421 then CtrForm
    else if n == 0x4C00_0020 || n == 0x4C00_0021 then LrForm
    else NoBranch
  }

  lemma FormByNumber(code: Bits)
    requires |code| == SIZE
    ensures FormOf(code) == FormOfNumber(Number(code))
  {
    var bc, b, ctr, lr := ComparedWith(code[1], code[0]);
    SameCode(code, bc);
    SameCode(code, b);
    SameCode(code, ctr);
    SameCode(code, lr);
    LowBits2(code);
    ByTheLowBits(Number(code), Bit(code[1]), Bit(code[0]));
  }

  lemma RegisterForms(lk: bool)
    ensures FormOf(RegisterCode(16, lk)) == LrForm && FormOf(RegisterCode(528, lk)) == CtrForm
  {
    RegisterCodes(16, lk);
    RegisterCodes(528, lk);
    FormByNumber(RegisterCode(16, lk));
    FormByNumber(RegisterCode(528, lk));
  }

  lemma ByTheLowBits(n: nat, aa: nat, lk: nat)
    requires aa < 2 && lk < 2 && n % 2 == lk && n / 2 % 2 == aa
    ensures FormOfNumber(n) ==
            if n == 0x4000_0000 + 2 * aa + lk then BcForm
            else if n == 0x4800_0000 + 2 * aa + lk then BForm
            else if n == 0x4C00_0420 + lk then CtrForm
            else if n == 0x4C00_0020 + lk then LrForm
            else NoBranch
  {
  }

  lemma LowBits2(code: Bits)
    requires |code| == SIZE
    ensures Number(code) % 2 == Bit(code[0]) && Number(code) / 2 % 2 == Bit(code[1])
  {
    LinkBit(code);
    ExtractIsShift(AA, code);
    Shifts();
    OneBit(LK, code);
    OneBit(AA, code);
  }

  /** bclr goes to the link register and bcctr to the count register if the condition holds, unless it is a call that
      is stepped over; otherwise on to the next instruction. */
  lemma RegisterBranch(f: seq<Operand>, w: Bits, regs: Regs, over: bool, lk: bool)
    requires |w| == SIZE && |regs.cr| == SIZE && regs.lr < WORD && regs.ctr < WORD
    requires BO in f && BI in f && LK in f && Number(w) % 2 == Bit(lk) && regs.nip % 4 == 0
    ensures var taken, on := CondTaken(w, regs) && !(over && lk), (regs.nip + 4) % WORD;
            && NextAddress(FormOfNumber(0x4C00_0020 + Bit(lk)), f, w, regs, over) == Some(if taken then regs.lr else on)
            && NextAddress(FormOfNumber(0x4C00_0420 + Bit(lk)), f, w, regs, over) == Some(if taken then regs.ctr else on)
  {
    LinkBit(w);
    FollowsRegister(f, w, regs, over, lk);
  }

  lemma LinkBit(w: Bits)
    requires |w| == SIZE
    ensures Extract(LK, w) == Number(w) % 2
  {
    ExtractIsShift(LK, w);
  }

  lemma FollowsRegister(f: seq<Operand>, w: Bits, regs: Regs, over: bool, lk: bool)
    requires |w| == SIZE && |regs.cr| == SIZE && regs.lr < WORD && regs.ctr < WORD
    requires BO in f && BI in f && LK in f && Extract(LK, w) == Bit(lk) && regs.nip % 4 == 0
    ensures var taken := CondTaken(w, regs) && !(over && lk);
            && NextAddress(LrForm, f, w, regs, over) == Some(if taken then regs.lr else (regs.nip + 4) % WORD)
            && NextAddress(CtrForm, f, w, regs, over) == Some(if taken then regs.ctr else (regs.nip + 4) % WORD)
  {
  }

  /** What the usual values of BO ask for: always, if a condition bit is clear or set, and if the decremented count is
      not zero or zero. */
  lemma Conditions(bi: nat, ctr: nat, cr: Bits)
    requires bi < 32 && |cr| == SIZE && ctr < WORD
    ensures Unreserved(20) && Unreserved(4) && Unreserved(12) && Unreserved(16) && Unreserved(18)
    ensures Taken(20, bi, ctr, cr)
    ensures Taken(4, bi, ctr, cr) <==> !cr[31 - bi]
    ensures Taken(12, bi, ctr, cr) <==> cr[31 - bi]
    ensures Taken(16, bi, ctr, cr) <==> (ctr + WORD - 1) % WORD != 0
    ensures Taken(18, bi, ctr, cr) <==> (ctr + WORD - 1) % WORD == 0
  {
  }

  /** blr is 0x4E800020 and bctr 0x4E800420; they go to the register whatever the condition bits are. */
  lemma ReturnGoesToLink(w: Bits, regs: Regs, over: bool)
    requires |w| == SIZE && |regs.cr| == SIZE && regs.lr < WORD && regs.ctr < WORD && regs.nip % 4 == 0
    ensures Number(w) == 0x4E80_0020 ==>
              NextAddress(FormOfNumber(0x4C00_0020), [BO, BI, LK], w, regs, over) == Some(regs.lr)
    ensures Number(w) == 0x4E80_0420 ==>
              NextAddress(FormOfNumber(0x4C00_0420), [BO, BI, LK], w, regs, over) == Some(regs.ctr)
  {
    if Number(w) in [0x4E80_0020, 0x4E80_0420] {
      AlwaysTaken(w, regs);
      RegisterBranch([BO, BI, LK], w, regs, over, false);
    }
  }

  lemma AlwaysTaken(w: Bits, regs: Regs)
    requires |w| == SIZE && |regs.cr| == SIZE && regs.ctr < WORD && Number(w) in [0x4E80_0020, 0x4E80_0420]
    ensures CondTaken(w, regs) && Number(w) % 2 == 0
  {
    Shifts();
    ExtractIsShift(BO, w);
    ExtractIsShift(BI, w);
    Conditions(0, regs.ctr, regs.cr);
  }

  // ---------------------------------------------------------- special registers

  /** The two halves of a special register number are exchanged. */
  lemma HalvesExchanged(hi: nat, lo: nat)
    requires hi < 32 && lo < 32
    ensures Swap(32 * hi + lo) == 32 * lo + hi
  {
  }

  /** The numbers 8 and 9 of lr and ctr, and 268 and 269 of the time base; general registers end at 31. */
  lemma RegisterNumbers(memaddr: nat, relative: bool, o: Operand, n: int)
    requires OperandOk(o)
    ensures o.kind == Special ==>
              OperandValue(memaddr, relative, o, 8) == Ok(0x100) && OperandValue(memaddr, relative, o, 9) == Ok(0x120)
    ensures o.kind == TimeBase ==>
              OperandValue(memaddr, relative, o, 268) == Ok(0x188) && OperandValue(memaddr, relative, o, 270) == Err(BadTbr)
    ensures o.kind == Register ==> (OperandValue(memaddr, relative, o, n) == Err(BadRegister) <==> n >= 32)
  {
  }
}
