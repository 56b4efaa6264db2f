/** Branch instructions: assembling them, printing their target and stepping over them. */
module BedbugBranch {
  import opened Machine
  import opened BedbugFields

  // ------------------------------------------------------- address operands

  /** A field of `bits` bits as a signed number. */
  function Extended(v: nat, bits: nat): int
    requires bits >= 1
  {
    if v >= Pow2(bits - 1) then v - Pow2(bits) else v
  }

  /** The address the disassembler prints for the operand. */
  function PrintedAddress(o: Operand, instr: Bits, relative: bool, at: nat): nat
    requires OperandOk(o) && o.bits >= 1 && |instr| == SIZE
  {
    (4 * Extended(Extract(o, instr), o.bits) + if relative then at else 0) % WORD
  }

  /** How far the operand's address is away: from the instruction, or from zero. */
  function Distance(target: int, relative: bool, at: nat): int {
    if relative then Signed(target - at) else Signed(target)
  }

  /** Word aligned and in reach of the field. */
  predicate Reachable(distance: int, bits: nat)
    requires bits >= 1
  {
    distance % 4 == 0 && -4 * Pow2(bits - 1) <= distance < 4 * Pow2(bits - 1)
  }

  lemma FieldBound(d: int, bits: nat)
    requires bits >= 1
    ensures AddressField(d, bits) < Pow2(bits) == 2 * Pow2(bits - 1)
  {
  }

  /** The field holds the distance exactly when the branch can reach. */
  lemma {:induction false} FieldHolds(d: int, bits: nat)
    requires bits >= 1
    ensures 4 * Extended(AddressField(d, bits), bits) == d <==> Reachable(d, bits)
    ensures 0 <= Extended(AddressField(d, bits), bits) + Pow2(bits - 1) < 2 * Pow2(bits - 1)
  {
    var h := Pow2(bits - 1);
    var q := d / 4;
    FieldBound(d, bits);
    if 0 <= q < h {
      ModUnique(q, h, 0, q);
    } else if -h <= q < 0 {
      ModUnique(q, h, -1, q + h);
    }
  }

  lemma SameAddress(d: int, e: int, at: int, target: nat)
    requires -0x8000_0000 <= d < 0x8000_0000 && -0x8000_0000 <= e < 0x8000_0000
    requires target < WORD && d == Signed(target - at)
    ensures (e + at) % WORD == target <==> e == d
  {
  }

  lemma Pow2Values()
    ensures Pow2(4) == 16 && Pow2(8) == 256 && Pow2(13) == 0x2000 && Pow2(23) == 0x80_0000 && Pow2(28) == 0x1000_0000
  {
  }

  lemma {:induction false} Pow2Below(a: nat)
    requires a <= 28
    ensures Pow2(a) <= 0x1000_0000
    decreases 28 - a
  {
    if a == 28 {
      Pow2Values();
    } else {
      Pow2Below(a + 1);
    }
  }

  /** The reach of the two branch forms in bytes. */
  lemma Reach(d: int)
    ensures Reachable(d, 24) <==> d % 4 == 0 && -0x200_0000 <= d < 0x200_0000
    ensures Reachable(d, 14) <==> d % 4 == 0 && -0x8000 <= d < 0x8000
  {
    Pow2Values();
  }

  /** A packed address prints as the target exactly when the target is reachable. */
  lemma AddressRoundTrip(o: Operand, w: Bits, relative: bool, at: nat, target: nat)
    requires OperandOk(o) && o.kind.Address? && |w| == SIZE && target < WORD && at < WORD
    requires Extract(o, w) == AddressField(Distance(target, relative, at), o.bits) % Pow2(o.bits)
    ensures PrintedAddress(o, w, relative, at) == target <==> Reachable(Distance(target, relative, at), o.bits)
  {
    var d := Distance(target, relative, at);
    FieldBound(d, o.bits);
    ModUnique(AddressField(d, o.bits), Pow2(o.bits), 0, AddressField(d, o.bits));
    FieldHolds(d, o.bits);
    Pow2Below(o.bits - 1);
    SameAddress(d, 4 * Extended(Extract(o, w), o.bits), if relative then at else 0, target);
  }

  // ------------------------------------------------------- the instructions

  const AA: Operand := Operand(1, 1, 1, Silent)
  const BD: Operand := Operand(2, 14, 2, Address)
  const BI: Operand := Operand(3, 5, 16, Plain)
  const BO: Operand := Operand(4, 5, 21, Plain)
  const LI: Operand := Operand(14, 24, 2, Address)
  const LK: Operand := Operand(15, 1, 0, Silent)

  /** Codes of the I and B forms: primary opcode, absolute and link bit. */
  function BranchCode(primary: nat, aa: bool, lk: bool): (c: Bits)
    ensures |c| == SIZE && c[1] == aa && c[0] == lk && forall k | 2 <= k < 26 :: !c[k]
    ensures c[27] == (primary / 2 % 2 == 1)
  {
    [lk, aa] + Zeros(24) + LowBits(primary, 6)
  }

  /** Codes of the XL form. */
  function RegisterCode(xo: nat, lk: bool): (c: Bits)
    ensures |c| == SIZE && c[0] == lk && forall k | 11 <= k < 26 :: !c[k]
  {
    [lk] + LowBits(xo, 10) + Zeros(15) + LowBits(19, 6)
  }

  function Branch(aa: bool, lk: bool): (op: Opcode)
    ensures OpcodeOk(op)
  {
    Opcode(BranchCode(18, aa, lk), [LI, AA, LK], !aa)
  }

  function Conditional(aa: bool, lk: bool): (op: Opcode)
    ensures OpcodeOk(op)
  {
    Opcode(BranchCode(16, aa, lk), [BO, BI, BD, AA, LK], !aa)
  }

  // ------------------------------------------------------------ branching

  datatype Regs = Regs(nip: nat, ctr: nat, cr: Bits, lr: nat)

  /** Bit `k` of a BO field, counted from its high end. */
  predicate BoBit(bo: nat, k: nat)
    requires k < 5
  {
    (bo / (if k == 0 then 16 else if k == 1 then 8 else if k == 2 then 4 else if k == 3 then 2 else 1)) % 2 == 1
  }

  /** The branch condition of section 2.4.1 of the PowerPC UISA: the decremented counter
      unless BO[2], the condition bit unless BO[0]. */
  predicate Taken(bo: nat, bi: nat, ctr: nat, cr: Bits)
    requires bi < 32 && |cr| == SIZE
  {
    && (BoBit(bo, 2) || (ctr != 1) != BoBit(bo, 3))
    && (BoBit(bo, 0) || cr[31 - bi] == BoBit(bo, 1))
  }

  /** The encodings whose reserved bits are zero. */
  predicate Unreserved(bo: nat) { !(BoBit(bo, 0) && BoBit(bo, 1)) && !(BoBit(bo, 2) && BoBit(bo, 3)) }

  /** The switch of find_next_address: the architecture's condition exactly for encodings
      without reserved bits; all others count as not taken. */
  method Decide(bo: nat, bi: nat, ctr: nat, cr: Bits) returns (taken: bool)
    requires bo < 32 && bi < 32 && ctr < WORD && |cr| == SIZE
    ensures taken <==> Unreserved(bo) && Taken(bo, bi, ctr, cr)
  {
    var ctrOk, condOk := false, false;
    var counted := (ctr + WORD - 1) % WORD;
    var bit := cr[31 - bi];
    var select := bo / 2;
    if select == 0 {
      ctrOk, condOk := counted != 0, !bit;
    } else if select == 1 {
      ctrOk, condOk := counted == 0, !bit;
    } else if select == 2 {
      ctrOk, condOk := true, !bit;
    } else if select == 4 {
      ctrOk, condOk := counted != 0, bit;
    } else if select == 5 {
      ctrOk, condOk := counted == 0, bit;
    } else if select == 6 {
      ctrOk, condOk := true, bit;
    } else if select == 8 {
      if counted != 0 { ctrOk, condOk := true, true; }
    } else if select == 9 {
      if counted == 0 { ctrOk, condOk := true, true; }
    } else if select == 10 {
      ctrOk, condOk := true, true;
    }
    taken := ctrOk && condOk;
  }

  // -------------------------------------------------------------- stepping

  /** Identifiers name the operands of the processor's table. */
  predicate Standard(fields: seq<Operand>) {
    forall o | o in fields ::
      && (o.id == 1 ==> o == AA) && (o.id == 2 ==> o == BD) && (o.id == 3 ==> o == BI)
      && (o.id == 4 ==> o == BO) && (o.id == 14 ==> o == LI) && (o.id == 15 ==> o == LK)
  }

  predicate Has(fields: seq<Operand>, o: Operand) { o in fields }

  lemma {:induction false} LookupStandard(fields: seq<Operand>, instr: Bits, o: Operand)
    requires OperandsOk(fields) && |instr| == SIZE && Standard(fields) && o in [AA, BD, BI, BO, LI, LK]
    ensures Lookup(fields, instr, o.id) == if Has(fields, o) then Some(Extract(o, instr)) else None
    decreases fields
  {
    if fields != [] {
      assert fields[0] in fields;
      assert forall p | p in fields[1..] :: p in fields;
      LookupStandard(fields[1..], instr, o);
      assert Has(fields, o) <==> fields[0] == o || Has(fields[1..], o);
    }
  }

  lemma FiveBits(o: Operand, instr: Bits)
    requires OperandOk(o) && o.bits == 5 && |instr| == SIZE
    ensures Extract(o, instr) < 32
  {
    NumberBound(instr[o.shift..o.shift + 5]);
    FivePow();
  }

  /** Where control goes: to the target if the branch is taken, unless it is a call that is
      stepped over; otherwise to the next instruction. */
  function Continues(pc: nat, target: int, absolute: bool, link: bool, taken: bool, over: bool): nat {
    if taken && !(over && link) then (target + if absolute then 0 else pc) % WORD else (pc + 4) % WORD
  }

  /** The instructions that find_next_address tells apart, by their code. */
  datatype Form = BcForm | BForm | CtrForm | LrForm | NoBranch

  function FormOf(code: Bits): Form
    requires |code| == SIZE
  {
    if code == BranchCode(16, code[1], code[0]) then BcForm
    else if code == BranchCode(18, code[1], code[0]) then BForm
    else if code == RegisterCode(528, code[0]) then CtrForm
    else if code == RegisterCode(16, code[0]) then LrForm
    else NoBranch
  }

  function CondTaken(instr: Bits, regs: Regs): bool
    requires |instr| == SIZE && |regs.cr| == SIZE
  {
    var bo, bi := Extract(BO, instr), Extract(BI, instr);
    FiveBits(BI, instr);
    Unreserved(bo) && Taken(bo, bi, regs.ctr, regs.cr)
  }

  /** The next address, by the architecture's branch rules; None when an operand is missing. */
  function NextAddress(form: Form, f: seq<Operand>, instr: Bits, regs: Regs, over: bool): Option<nat>
    requires |instr| == SIZE && |regs.cr| == SIZE
  {
    var pc := regs.nip - regs.nip % 4;
    var aa, lk := Extract(AA, instr) != 0, Extract(LK, instr) != 0;
    match form
    case BcForm =>
      if Has(f, BD) && Has(f, BO) && Has(f, BI) && Has(f, AA) && Has(f, LK) then
        Some(Continues(pc, 4 * Extended(Extract(BD, instr), 14), aa, lk, CondTaken(instr, regs), over))
      else None
    case BForm =>
      if Has(f, LI) && Has(f, AA) && Has(f, LK) then
        Some(Continues(pc, 4 * Extended(Extract(LI, instr), 24), aa, lk, true, over))
      else None
    case CtrForm | LrForm =>
      if Has(f, BO) && Has(f, BI) && Has(f, LK) then
        Some(Continues(pc, if form.CtrForm? then regs.ctr else regs.lr, true, lk, CondTaken(instr, regs), over))
      else None
    case NoBranch => Some((pc + 4) % WORD)
  }

  method Fetch(op: Opcode, instr: Bits, o: Operand) returns (v: Option<nat>)
    requires OpcodeOk(op) && Standard(op.fields) && |instr| == SIZE && o in [AA, BD, BI, BO, LI, LK]
    ensures v == if Has(op.fields, o) then Some(Extract(o, instr)) else None
  {
    LookupStandard(op.fields, instr, o);
    v := GetOperandValue(op, instr, o.id);
  }

  /** The operands BO and BI, and what they decide. */
  method FetchCondition(op: Opcode, instr: Bits, regs: Regs) returns (taken: Option<bool>)
    requires OpcodeOk(op) && Standard(op.fields) && |instr| == SIZE && |regs.cr| == SIZE && regs.ctr < WORD
    ensures taken == if Has(op.fields, BO) && Has(op.fields, BI) then Some(CondTaken(instr, regs)) else None
  {
    var bo := Fetch(op, instr, BO);
    if bo.None? { return None; }
    var bi := Fetch(op, instr, BI);
    if bi.None? { return None; }
    FiveBits(BO, instr);
    FiveBits(BI, instr);
    var t := Decide(bo.value, bi.value, regs.ctr, regs.cr);
    return Some(t);
  }

  /** A field of the instruction as a signed byte offset. */
  method ByteOffset(v: nat, bits: nat) returns (s: int)
    requires bits >= 1
    ensures s == 4 * Extended(v, bits)
  {
    s := v;
    if v >= Pow2(bits - 1) { s := s - Pow2(bits); }
    s := 4 * s;
  }

  method FindNextAddress(op: Opcode, instr: Bits, regs: Regs, over: bool) returns (r: Option<nat>)
    requires OpcodeOk(op) && Standard(op.fields) && |instr| == SIZE && |regs.cr| == SIZE && regs.ctr < WORD
    ensures r == NextAddress(FormOf(op.code), op.fields, instr, regs, over)
  {
    r := FollowForm(FormOf(op.code), op, instr, regs, over);
  }

  method FollowForm(form: Form, op: Opcode, instr: Bits, regs: Regs, over: bool) returns (r: Option<nat>)
    requires OpcodeOk(op) && Standard(op.fields) && |instr| == SIZE && |regs.cr| == SIZE && regs.ctr < WORD
    ensures r == NextAddress(form, op.fields, instr, regs, over)
  {
    var pc := regs.nip - regs.nip % 4;
    if form.BcForm? || form.BForm? {
      r := FollowImmediate(form, op, instr, regs, over, pc);
    } else if form.CtrForm? || form.LrForm? {
      r := FollowRegister(form, op, instr, regs, over, pc);
    } else {
      r := Some((pc + 4) % WORD);
    }
  }

  method FollowImmediate(form: Form, op: Opcode, instr: Bits, regs: Regs, over: bool, pc: nat) returns (r: Option<nat>)
    requires OpcodeOk(op) && Standard(op.fields) && |instr| == SIZE && |regs.cr| == SIZE && regs.ctr < WORD
    requires (form.BcForm? || form.BForm?) && pc == regs.nip - regs.nip % 4
    ensures r == NextAddress(form, op.fields, instr, regs, over)
  {
    var target := FetchTarget(op, instr, if form.BcForm? then BD else LI);
    if target.None? { return None; }
    var taken := Some(true);
    if form.BcForm? {
      taken := FetchCondition(op, instr, regs);
      if taken.None? { return None; }
    }
    var flags := FetchFlags(op, instr);
    if flags.None? { return None; }
    var next := Continue(pc, target.value, flags.value.0, flags.value.1, taken.value, over);
    return Some(next);
  }

  /** The address operand as a byte offset. */
  method FetchTarget(op: Opcode, instr: Bits, o: Operand) returns (t: Option<int>)
    requires OpcodeOk(op) && Standard(op.fields) && |instr| == SIZE && (o == BD || o == LI)
    ensures t == if Has(op.fields, o) then Some(4 * Extended(Extract(o, instr), o.bits)) else None
  {
    var addr := Fetch(op, instr, o);
    if addr.None? { return None; }
    var target := ByteOffset(addr.value, o.bits);
    return Some(target);
  }

  /** The operands AA and LK. */
  method FetchFlags(op: Opcode, instr: Bits) returns (f: Option<(bool, bool)>)
    requires OpcodeOk(op) && Standard(op.fields) && |instr| == SIZE
    ensures f == if Has(op.fields, AA) && Has(op.fields, LK)
      then Some((Extract(AA, instr) != 0, Extract(LK, instr) != 0)) else None
  {
    var aa := Fetch(op, instr, AA);
    if aa.None? { return None; }
    var lk := Fetch(op, instr, LK);
    if lk.None? { return None; }
    return Some((aa.value != 0, lk.value != 0));
  }

  method FollowRegister(form: Form, op: Opcode, instr: Bits, regs: Regs, over: bool, pc: nat) returns (r: Option<nat>)
    requires OpcodeOk(op) && Standard(op.fields) && |instr| == SIZE && |regs.cr| == SIZE && regs.ctr < WORD
    requires (form.CtrForm? || form.LrForm?) && pc == regs.nip - regs.nip % 4
    ensures r == NextAddress(form, op.fields, instr, regs, over)
  {
    var taken := FetchCondition(op, instr, regs);
    if taken.None? { return None; }
    var lk := Fetch(op, instr, LK);
    if lk.None? { return None; }
    var target := if form.CtrForm? then regs.ctr else regs.lr;
    var next := Continue(pc, target, true, lk.value != 0, taken.value, over);
    return Some(next);
  }

  /** The end of find_next_address: the addresses for `step` and for `next`. */
  method Continue(pc: nat, target: int, absolute: bool, link: bool, taken: bool, over: bool) returns (r: nat)
    ensures r == Continues(pc, target, absolute, link, taken, over)
  {
    var next, step := (pc + 4) % WORD, (pc + 4) % WORD;
    if taken {
      step := (target + if absolute then 0 else pc) % WORD;
      if !link { next := step; }
    }
    r := if over then next else step;
  }

  // ----------------------------------------- assembled, printed and stepped

  lemma CodesDiffer(aa: bool, lk: bool)
    ensures FormOf(Branch(aa, lk).code) == BForm && FormOf(Conditional(aa, lk).code) == BcForm
  {
  }

  /** The stepper goes where the disassembler says an unconditional branch leads. */
  lemma StepsWherePrinted(f: seq<Operand>, w: Bits, regs: Regs)
    requires LI in f && AA in f && LK in f && |w| == SIZE && |regs.cr| == SIZE && regs.nip % 4 == 0
    ensures var relative := Extract(AA, w) == 0;
      NextAddress(BForm, f, w, regs, false) == Some(PrintedAddress(LI, w, relative, regs.nip))
    ensures NextAddress(BForm, f, w, regs, true)
      == if Extract(LK, w) != 0 then Some((regs.nip + 4) % WORD) else NextAddress(BForm, f, w, regs, false)
  {
  }

  /** A conditional branch goes there or on, by the architecture's condition. */
  lemma StepsByCondition(f: seq<Operand>, w: Bits, regs: Regs)
    requires BD in f && BO in f && BI in f && AA in f && LK in f
    requires |w| == SIZE && |regs.cr| == SIZE && regs.nip % 4 == 0
    ensures var relative := Extract(AA, w) == 0;
      NextAddress(BcForm, f, w, regs, false)
      == Some(if CondTaken(w, regs) then PrintedAddress(BD, w, relative, regs.nip) else (regs.nip + 4) % WORD)
  {
  }

  lemma OneBit(o: Operand, instr: Bits)
    requires OperandOk(o) && o.bits == 1 && |instr| == SIZE
    ensures (Extract(o, instr) != 0) == instr[o.shift]
  {
    var b := instr[o.shift..o.shift + o.bits];
    assert b == [instr[o.shift]] && b[1..] == [];
    assert Number(b) == (if b[0] then 1 else 0) + 2 * Number(b[1..]);
  }

  /** What matters of a branch's opcode. */
  predicate BranchLike(op: Opcode, fields: seq<Operand>, aa: bool, lk: bool) {
    && OpcodeOk(op) && op.fields == fields && op.relative == !aa && op.code[1] == aa && op.code[0] == lk
    && forall k | 2 <= k < 26 :: !op.code[k]
  }

  lemma BranchDisjoint(op: Opcode, aa: bool, lk: bool)
    requires BranchLike(op, [LI, AA, LK], aa, lk) || BranchLike(op, [BO, BI, BD, AA, LK], aa, lk)
    ensures Disjoint(op.code, op.fields)
  {
  }

  /** An assembled instruction's operand number `i`. */
  lemma {:induction false} OperandIs(op: Opcode, at: nat, args: seq<int>, w: Bits, i: nat, o: Operand)
    requires OpcodeOk(op) && i < |op.fields| && op.fields[i] == o && |w| == SIZE
    requires Disjoint(op.code, op.fields)
    requires Assembled(at, op.relative, op.fields, args, op.code) == Ok(w)
    ensures o.kind.Silent? ==> Extract(o, w) == Extract(o, op.code)
    ensures o.kind.Address? ==>
      Extract(o, w) == AddressField(Distance(ArgOf(op.fields, args, i), op.relative, at), o.bits) % Pow2(o.bits)
    ensures o.kind.Plain? ==> Extract(o, w) == ArgOf(op.fields, args, i) % Pow2(o.bits)
  {
    OperandsSurvive(at, op.relative, op.fields, args, op.code, i);
  }

  /** A branch has one argument and always assembles. */
  lemma {:induction false} BranchAssembles(op: Opcode, aa: bool, lk: bool, at: nat, args: seq<int>)
    requires BranchLike(op, [LI, AA, LK], aa, lk) && |args| == 1
    ensures Assembled(at, op.relative, op.fields, args, op.code).Ok?
  {
    var v := OperandValue(at, op.relative, LI, args[0]).value;
    SilentTail(at, op.relative, args[1..], Or(op.code, Pack(LI, v)));
    assert op.fields[1..] == [AA, LK];
  }

  lemma {:induction false} SilentTail(at: nat, relative: bool, args: seq<int>, w: Bits)
    requires |w| == SIZE
    ensures Assembled(at, relative, [AA, LK], args, w) == Ok(w)
  {
    assert [AA, LK][1..] == [LK] && [LK][1..] == [];
    assert Assembled(at, relative, [LK], args, w) == Ok(w);
  }

  /** A branch assembled at `at` to `target`: it prints as the target, and stepping goes
      there, exactly when the target is a word in reach; stepping over a call goes on. */
  lemma {:induction false} BranchLikeRoundTrip(op: Opcode, aa: bool, lk: bool, at: nat, args: seq<int>, regs: Regs, w: Bits)
    requires BranchLike(op, [LI, AA, LK], aa, lk) && |args| == 1 && 0 <= args[0] < WORD
    requires at < WORD && at % 4 == 0 && regs.nip == at && |regs.cr| == SIZE && |w| == SIZE
    requires Assembled(at, op.relative, op.fields, args, op.code) == Ok(w)
    ensures BranchWorks([LI, AA, LK], aa, lk, args[0], regs, w)
  {
    BranchOperands(op, aa, lk, at, args, w);
    BranchGoes([LI, AA, LK], aa, lk, args[0], regs, w);
  }

  predicate BranchWorks(f: seq<Operand>, aa: bool, lk: bool, target: nat, regs: Regs, w: Bits)
    requires |regs.cr| == SIZE && |w| == SIZE
  {
    var reach := Reachable(Distance(target, !aa, regs.nip), 24);
    && (PrintedAddress(LI, w, !aa, regs.nip) == target <==> reach)
    && (NextAddress(BForm, f, w, regs, false) == Some(target) <==> reach)
    && (lk ==> NextAddress(BForm, f, w, regs, true) == Some((regs.nip + 4) % WORD))
  }

  /** The operands of an assembled branch. */
  lemma {:induction false} BranchOperands(op: Opcode, aa: bool, lk: bool, at: nat, args: seq<int>, w: Bits)
    requires BranchLike(op, [LI, AA, LK], aa, lk) && |args| == 1 && |w| == SIZE
    requires Assembled(at, op.relative, op.fields, args, op.code) == Ok(w)
    ensures Extract(LI, w) == AddressField(Distance(args[0], !aa, at), 24) % Pow2(24)
    ensures (Extract(AA, w) != 0) == aa && (Extract(LK, w) != 0) == lk
  {
    BranchDisjoint(op, aa, lk);
    OperandIs(op, at, args, w, 0, LI);
    OperandIs(op, at, args, w, 1, AA);
    OperandIs(op, at, args, w, 2, LK);
    OneBit(AA, op.code);
    OneBit(LK, op.code);
  }

  lemma BranchIsLike(aa: bool, lk: bool)
    ensures BranchLike(Branch(aa, lk), [LI, AA, LK], aa, lk)
    ensures BranchLike(Conditional(aa, lk), [BO, BI, BD, AA, LK], aa, lk)
  {
  }

  /** The same of the instructions b, bl, ba and bla themselves, which always assemble. */
  lemma {:induction false} BranchRoundTrip(aa: bool, lk: bool, at: nat, target: nat, regs: Regs)
    requires at < WORD && at % 4 == 0 && target < WORD && regs.nip == at && |regs.cr| == SIZE
    ensures var op := Branch(aa, lk);
      exists w: Bits | |w| == SIZE ::
        Assembled(at, op.relative, op.fields, [target], op.code) == Ok(w) && BranchWorks(op.fields, aa, lk, target, regs, w)
  {
    BranchIsLike(aa, lk);
    var op := Branch(aa, lk);
    var args: seq<int> := [target];
    BranchAssembles(op, aa, lk, at, args);
    var w := Assembled(at, op.relative, op.fields, args, op.code).value;
    BranchLikeRoundTrip(op, aa, lk, at, args, regs, w);
  }

  /** The operands of an assembled conditional branch. */
  lemma {:induction false} ConditionalOperands(op: Opcode, aa: bool, lk: bool, at: nat, args: seq<int>, w: Bits)
    requires BranchLike(op, [BO, BI, BD, AA, LK], aa, lk) && |w| == SIZE
    requires |args| == 3 && 0 <= args[0] < 32 && 0 <= args[1] < 32 && 0 <= args[2] < WORD
    requires Assembled(at, op.relative, op.fields, args, op.code) == Ok(w)
    ensures Extract(BD, w) == AddressField(Distance(args[2], !aa, at), 14) % Pow2(14)
    ensures Extract(BO, w) == args[0] && Extract(BI, w) == args[1]
    ensures (Extract(AA, w) != 0) == aa
  {
    BranchDisjoint(op, aa, lk);
    ConditionOperands(op, at, args, w);
    TargetOperands(op, at, args, w);
    OneBit(AA, op.code);
  }

  lemma {:induction false} ConditionOperands(op: Opcode, at: nat, args: seq<int>, w: Bits)
    requires OpcodeOk(op) && op.fields == [BO, BI, BD, AA, LK] && Disjoint(op.code, op.fields) && |w| == SIZE
    requires |args| == 3 && 0 <= args[0] < 32 && 0 <= args[1] < 32
    requires Assembled(at, op.relative, op.fields, args, op.code) == Ok(w)
    ensures Extract(BO, w) == args[0] && Extract(BI, w) == args[1]
  {
    ConditionalArgs(args);
    FivePow();
    OperandIs(op, at, args, w, 0, BO);
    OperandIs(op, at, args, w, 1, BI);
    ModUnique(args[0], 32, 0, args[0]);
    ModUnique(args[1], 32, 0, args[1]);
  }

  lemma {:induction false} TargetOperands(op: Opcode, at: nat, args: seq<int>, w: Bits)
    requires OpcodeOk(op) && op.fields == [BO, BI, BD, AA, LK] && Disjoint(op.code, op.fields) && |w| == SIZE
    requires |args| == 3 && Assembled(at, op.relative, op.fields, args, op.code) == Ok(w)
    ensures Extract(BD, w) == AddressField(Distance(args[2], op.relative, at), 14) % Pow2(14)
    ensures Extract(AA, w) == Extract(AA, op.code)
  {
    ConditionalArgs(args);
    OperandIs(op, at, args, w, 2, BD);
    OperandIs(op, at, args, w, 3, AA);
  }

  lemma {:induction false} ConditionalArgs(args: seq<int>)
    requires |args| == 3
    ensures var f := [BO, BI, BD, AA, LK];
      ArgOf(f, args, 0) == args[0] && ArgOf(f, args, 1) == args[1] && ArgOf(f, args, 2) == args[2]
  {
    var f := [BO, BI, BD, AA, LK];
    var g, a := f[1..], args[1..];
    assert g == [BI, BD, AA, LK];
    assert g[1..] == [BD, AA, LK];
    assert ArgOf(g[1..], a[1..], 0) == args[2];
    assert ArgOf(g, a, 1) == args[2] && ArgOf(g, a, 0) == args[1];
  }

  /** A conditional branch, with the arguments BO, BI and target, prints as its target
      exactly when that is a word in reach, and then stepping goes there or on by the
      architecture's condition. */
  lemma {:induction false} ConditionalRoundTrip(op: Opcode, aa: bool, lk: bool, at: nat, args: seq<int>, regs: Regs, w: Bits)
    requires BranchLike(op, [BO, BI, BD, AA, LK], aa, lk)
    requires |args| == 3 && 0 <= args[0] < 32 && 0 <= args[1] < 32 && 0 <= args[2] < WORD
    requires at < WORD && at % 4 == 0 && regs.nip == at && |regs.cr| == SIZE && |w| == SIZE
    requires Assembled(at, op.relative, op.fields, args, op.code) == Ok(w)
    ensures ConditionalWorks([BO, BI, BD, AA, LK], aa, args[0], args[1], args[2], regs, w)
  {
    ConditionalOperands(op, aa, lk, at, args, w);
    ConditionalGoes([BO, BI, BD, AA, LK], aa, args[0], args[1], args[2], regs, w);
  }

  predicate ConditionalWorks(f: seq<Operand>, aa: bool, bo: nat, bi: nat, target: nat, regs: Regs, w: Bits)
    requires bi < 32 && |regs.cr| == SIZE && |w| == SIZE
  {
    var reach := Reachable(Distance(target, !aa, regs.nip), 14);
    && (PrintedAddress(BD, w, !aa, regs.nip) == target <==> reach)
    && (reach ==>
          NextAddress(BcForm, f, w, regs, false)
          == Some(if Unreserved(bo) && Taken(bo, bi, regs.ctr, regs.cr) then target else (regs.nip + 4) % WORD))
  }

  /** The same, from the operands. */
  lemma ConditionalGoes(f: seq<Operand>, aa: bool, bo: nat, bi: nat, target: nat, regs: Regs, w: Bits)
    requires f == [BO, BI, BD, AA, LK] && target < WORD && bo < 32 && bi < 32
    requires regs.nip < WORD && regs.nip % 4 == 0 && |regs.cr| == SIZE && |w| == SIZE
    requires Extract(BD, w) == AddressField(Distance(target, !aa, regs.nip), 14) % Pow2(14)
    requires Extract(BO, w) == bo && Extract(BI, w) == bi && (Extract(AA, w) != 0) == aa
    ensures ConditionalWorks(f, aa, bo, bi, target, regs, w)
  {
    AddressRoundTrip(BD, w, !aa, regs.nip, target);
    StepsByCondition(f, w, regs);
  }

  /** A plain branch, from its operands. */
  lemma BranchGoes(f: seq<Operand>, aa: bool, lk: bool, target: nat, regs: Regs, w: Bits)
    requires f == [LI, AA, LK] && target < WORD
    requires regs.nip < WORD && regs.nip % 4 == 0 && |regs.cr| == SIZE && |w| == SIZE
    requires Extract(LI, w) == AddressField(Distance(target, !aa, regs.nip), 24) % Pow2(24)
    requires (Extract(AA, w) != 0) == aa && (Extract(LK, w) != 0) == lk
    ensures BranchWorks(f, aa, lk, target, regs, w)
  {
    AddressRoundTrip(LI, w, !aa, regs.nip, target);
    StepsWherePrinted(f, w, regs);
  }

  lemma FivePow()
    ensures Pow2(5) == 32
  {
  }
}
