/** Packing operands into PowerPC instructions and taking them out again, for any opcode
    table. An instruction is its 32 bits, lowest first. */
module BedbugFields {
  import opened Machine

  const SIZE: nat := 32

  type Bits = seq<bool>

  /** What the operand's hint makes the assembler do with its text. */
  datatype Kind = Silent | Address | Register | Special | TimeBase | Plain

  datatype Operand = Operand(id: nat, bits: nat, shift: nat, kind: Kind)

  datatype Opcode = Opcode(code: Bits, fields: seq<Operand>, relative: bool)

  predicate OperandOk(o: Operand) {
    o.bits + o.shift <= SIZE && (o.kind.Address? ==> 1 <= o.bits <= 29)
  }

  predicate OpcodeOk(op: Opcode) {
    |op.code| == SIZE && OperandsOk(op.fields)
  }

  predicate OperandsOk(fields: seq<Operand>) { forall i | 0 <= i < |fields| :: OperandOk(fields[i]) }

  // ------------------------------------------------- numbers and their bits

  /** The low bits of a number in two's complement: `n & ((1 << width) - 1)`. */
  function LowBits(n: int, width: nat): (b: Bits)
    ensures |b| == width
    decreases width
  {
    if width == 0 then [] else [n % 2 == 1] + LowBits(n / 2, width - 1)
  }

  function Number(b: Bits): nat {
    if b == [] then 0 else (if b[0] then 1 else 0) + 2 * Number(b[1..])
  }

  lemma {:induction false} NumberBound(b: Bits)
    ensures Number(b) < Pow2(|b|)
    decreases b
  {
    if b != [] { NumberBound(b[1..]); }
  }

  /** Bits read as a number are the number modulo their range. */
  lemma {:induction false} NumberOfLowBits(n: int, width: nat)
    ensures Number(LowBits(n, width)) == n % Pow2(width)
    decreases width
  {
    var v := Number(LowBits(n, width));
    if width == 0 {
      ModUnique(n, 1, n, 0);
    } else {
      var h := n / 2;
      var p := Pow2(width - 1);
      NumberOfLowBits(h, width - 1);
      assert LowBits(n, width)[1..] == LowBits(h, width - 1);
      assert n == 2 * h + n % 2 && h == p * (h / p) + h % p;
      assert 2 * (p * (h / p)) == (2 * p) * (h / p);
      ModUnique(n, 2 * p, h / p, 2 * (h % p) + n % 2);
    }
  }

  // --------------------------------------------------------- one operand

  function Zeros(n: nat): (b: Bits)
    ensures |b| == n && forall i | 0 <= i < n :: !b[i]
  {
    seq(n, i => false)
  }

  function Or(x: Bits, y: Bits): (r: Bits)
    requires |x| == |y|
    ensures |r| == |x| && forall i | 0 <= i < |x| :: r[i] == (x[i] || y[i])
  {
    seq(|x|, i requires 0 <= i < |x| && |x| == |y| => x[i] || y[i])
  }

  /** `(v & mask) << shift` */
  function Pack(o: Operand, v: int): (b: Bits)
    requires OperandOk(o)
    ensures |b| == SIZE && b[o.shift..o.shift + o.bits] == LowBits(v, o.bits)
    ensures forall k | 0 <= k < SIZE && !Within(k, o) :: !b[k]
  {
    Zeros(o.shift) + LowBits(v, o.bits) + Zeros(SIZE - o.shift - o.bits)
  }

  /** `(instr >> shift) & mask` */
  function Extract(o: Operand, instr: Bits): nat
    requires OperandOk(o) && |instr| == SIZE
  {
    Number(instr[o.shift..o.shift + o.bits])
  }

  /** Bit `k` belongs to the operand. */
  predicate Within(k: int, o: Operand) { o.shift <= k < o.shift + o.bits }

  /** No bit belongs to both. */
  ghost predicate Apart(o: Operand, p: Operand) { forall k :: !(Within(k, o) && Within(k, p)) }

  /** The operand's bits are all zero. */
  predicate Unset(o: Operand, instr: Bits)
    requires |instr| == SIZE
  {
    forall k | 0 <= k < SIZE && Within(k, o) :: !instr[k]
  }

  /** Packing an operand leaves the others alone ... */
  lemma PackKeeps(o: Operand, p: Operand, x: Bits, v: int)
    requires OperandOk(o) && OperandOk(p) && |x| == SIZE && Apart(o, p)
    ensures Extract(o, Or(x, Pack(p, v))) == Extract(o, x)
    ensures Unset(o, x) ==> Unset(o, Or(x, Pack(p, v)))
  {
    var y := Or(x, Pack(p, v));
    var i, j := o.shift, o.shift + o.bits;
    forall k | i <= k < j ensures y[k] == x[k] {
      assert Within(k, o);
    }
    assert y[i..j] == x[i..j];
  }

  /** ... and sets its own field, if that was clear. */
  lemma PackSets(o: Operand, x: Bits, v: int)
    requires OperandOk(o) && |x| == SIZE && Unset(o, x)
    ensures Extract(o, Or(x, Pack(o, v))) == v % Pow2(o.bits)
  {
    var b := Pack(o, v);
    var y := Or(x, b);
    var i, j := o.shift, o.shift + o.bits;
    forall k | i <= k < j ensures y[k] == b[k] {
      assert Within(k, o);
    }
    assert y[i..j] == b[i..j];
    NumberOfLowBits(v, o.bits);
  }

  // ------------------------------------------------------------ parsing

  datatype Error = NumOperands | BadRegister | BadSpr | BadTbr

  datatype Result<T> = Ok(value: T) | Err(error: Error)

  /** A long from an unsigned long. */
  function Signed(n: int): (s: int)
    ensures -0x8000_0000 <= s < 0x8000_0000
  {
    (n + 0x8000_0000) % WORD - 0x8000_0000
  }

  /** An address as the field holds it: its word offset, with the sign in the top bit. */
  function AddressField(data: int, bits: nat): nat
    requires bits >= 1
  {
    (data / 4) % Pow2(bits - 1) + if data < 0 then Pow2(bits - 1) else 0
  }

  /** The two five-bit halves of a register number exchanged. */
  function Swap(n: int): nat { (n / 32) % 32 + (n % 32) * 32 }

  /** A register number below 1024 survives the exchange of its halves. */
  lemma SwapTwice(n: int)
    ensures Swap(n) < 1024 && Swap(Swap(n)) == n % 1024
  {
    var hi, lo := (n / 32) % 32, n % 32;
    assert Swap(n) / 32 == lo && Swap(n) % 32 == hi;
    assert n / 32 == 32 * (n / 1024) + hi;
  }

  /** The value of an operand written as the (signed) number `n`. */
  function OperandValue(memaddr: nat, relative: bool, o: Operand, n: int): Result<int>
    requires OperandOk(o)
  {
    match o.kind
    case Address => Ok(AddressField(if relative then Signed(n - memaddr) else Signed(n), o.bits))
    case Register => if n > 31 then Err(BadRegister) else Ok(n)
    case Special => if Swap(n) == 0 then Err(BadSpr) else Ok(Swap(n))
    case TimeBase => if n != 268 && n != 269 then Err(BadTbr) else Ok(Swap(n))
    case Silent | Plain => Ok(n)
  }

  /** The instruction with the operands still to come put in; silent ones take no argument. */
  function Assembled(memaddr: nat, relative: bool, fields: seq<Operand>, args: seq<int>, instr: Bits): (r: Result<Bits>)
    requires OperandsOk(fields) && |instr| == SIZE
    ensures r.Ok? ==> |r.value| == SIZE
    decreases fields
  {
    if fields == [] then Ok(instr)
    else if fields[0].kind.Silent? then Assembled(memaddr, relative, fields[1..], args, instr)
    else if args == [] then Err(NumOperands)
    else match OperandValue(memaddr, relative, fields[0], args[0])
      case Err(e) => Err(e)
      case Ok(v) => Assembled(memaddr, relative, fields[1..], args[1..], Or(instr, Pack(fields[0], v)))
  }

  // ---------------------------------------------------- all the operands

  /** The arguments left after the first operand. */
  function Left(fields: seq<Operand>, args: seq<int>): seq<int>
    requires fields != []
  {
    if fields[0].kind.Silent? || args == [] then args else args[1..]
  }

  /** The argument that operand number `i` takes. */
  function ArgOf(fields: seq<Operand>, args: seq<int>, i: nat): int
    requires i < |fields|
    decreases fields
  {
    if i > 0 then ArgOf(fields[1..], Left(fields, args), i - 1) else if args == [] then 0 else args[0]
  }

  /** The fields do not overlap, and those that are put in are clear in the opcode. */
  ghost predicate Disjoint(code: Bits, fields: seq<Operand>)
    requires |code| == SIZE
  {
    && (forall i, j | 0 <= i < j < |fields| :: Apart(fields[i], fields[j]))
    && (forall i | 0 <= i < |fields| && !fields[i].kind.Silent? :: Unset(fields[i], code))
  }

  /** What is not among the fields does not change. */
  lemma {:induction false} AssembledKeeps(memaddr: nat, relative: bool, fields: seq<Operand>, args: seq<int>, instr: Bits, o: Operand)
    requires OperandsOk(fields) && OperandOk(o) && |instr| == SIZE
    requires forall i | 0 <= i < |fields| :: Apart(o, fields[i])
    requires Assembled(memaddr, relative, fields, args, instr).Ok?
    ensures Extract(o, Assembled(memaddr, relative, fields, args, instr).value) == Extract(o, instr)
    decreases fields
  {
    if fields != [] {
      if fields[0].kind.Silent? {
        AssembledKeeps(memaddr, relative, fields[1..], args, instr, o);
      } else {
        var v := OperandValue(memaddr, relative, fields[0], args[0]).value;
        PackKeeps(o, fields[0], instr, v);
        AssembledKeeps(memaddr, relative, fields[1..], args[1..], Or(instr, Pack(fields[0], v)), o);
      }
    }
  }

  lemma DisjointTail(code: Bits, fields: seq<Operand>, v: int)
    requires fields != [] && |code| == SIZE && OperandsOk(fields) && Disjoint(code, fields)
    ensures Disjoint(code, fields[1..]) && Disjoint(Or(code, Pack(fields[0], v)), fields[1..])
    ensures forall i | 0 <= i < |fields| - 1 :: Apart(fields[0], fields[1..][i])
    ensures forall i | 0 <= i < |fields| - 1 ::
      Extract(fields[1..][i], Or(code, Pack(fields[0], v))) == Extract(fields[1..][i], code)
  {
    var rest := fields[1..];
    forall i | 0 <= i < |rest|
      ensures Apart(fields[0], rest[i])
      ensures Extract(rest[i], Or(code, Pack(fields[0], v))) == Extract(rest[i], code)
      ensures !rest[i].kind.Silent? ==> Unset(rest[i], Or(code, Pack(fields[0], v)))
    {
      assert Apart(fields[0], fields[i + 1]);
      PackKeeps(rest[i], fields[0], code, v);
    }
  }

  /** Every operand that was put in is there, and the silent ones are the opcode's. */
  lemma {:induction false} OperandsSurvive(memaddr: nat, relative: bool, fields: seq<Operand>, args: seq<int>, code: Bits, i: nat)
    requires i < |fields| && |code| == SIZE && OperandsOk(fields) && Disjoint(code, fields)
    requires Assembled(memaddr, relative, fields, args, code).Ok?
    ensures var w, o := Assembled(memaddr, relative, fields, args, code).value, fields[i];
      var v := OperandValue(memaddr, relative, o, ArgOf(fields, args, i));
      if o.kind.Silent? then Extract(o, w) == Extract(o, code)
      else v.Ok? && Extract(o, w) == v.value % Pow2(o.bits)
    decreases fields
  {
    var o, rest, left := fields[0], fields[1..], Left(fields, args);
    if o.kind.Silent? {
      DisjointTail(code, fields, 0);
      if i == 0 {
        AssembledKeeps(memaddr, relative, rest, left, code, o);
      } else {
        OperandsSurvive(memaddr, relative, rest, left, code, i - 1);
      }
    } else {
      var v := OperandValue(memaddr, relative, o, args[0]).value;
      var next := Or(code, Pack(o, v));
      DisjointTail(code, fields, v);
      if i == 0 {
        PackSets(o, code, v);
        AssembledKeeps(memaddr, relative, rest, left, next, o);
      } else {
        OperandsSurvive(memaddr, relative, rest, left, next, i - 1);
        assert rest[i - 1] == fields[i];
      }
    }
  }

  // ----------------------------------------------------- as the source runs

  /** The value of the first operand with that identifier. */
  function Lookup(fields: seq<Operand>, instr: Bits, id: nat): Option<nat>
    requires OperandsOk(fields) && |instr| == SIZE
    decreases fields
  {
    if fields == [] then None
    else if fields[0].id == id then Some(Extract(fields[0], instr))
    else Lookup(fields[1..], instr, id)
  }

  /** get_operand_value */
  method GetOperandValue(op: Opcode, instr: Bits, id: nat) returns (value: Option<nat>)
    requires OpcodeOk(op) && |instr| == SIZE
    ensures value == Lookup(op.fields, instr, id)
  {
    var i := 0;
    while i < |op.fields|
      invariant i <= |op.fields| && Lookup(op.fields, instr, id) == Lookup(op.fields[i..], instr, id)
    {
      if op.fields[i].id == id {
        return Some(Extract(op.fields[i], instr));
      }
      assert op.fields[i..][1..] == op.fields[i + 1..];
      i := i + 1;
    }
    return None;
  }

  /** Looking an operand up after assembling returns what was put in. */
  lemma {:induction false} LookupFinds(fields: seq<Operand>, instr: Bits, i: nat)
    requires OperandsOk(fields) && |instr| == SIZE && i < |fields|
    requires forall j | 0 <= j < i :: fields[j].id != fields[i].id
    ensures Lookup(fields, instr, fields[i].id) == Some(Extract(fields[i], instr))
    decreases fields
  {
    if i > 0 { LookupFinds(fields[1..], instr, i - 1); }
  }

  /** asmppc, with the numbers of the operand texts. */
  method Asmppc(memaddr: nat, op: Opcode, args: seq<int>) returns (r: Result<Bits>)
    requires OpcodeOk(op)
    ensures r == Assembled(memaddr, op.relative, op.fields, args, op.code)
  {
    var instr, k, a := op.code, 0, 0;
    ghost var fields, left := op.fields, args;
    while k < |op.fields|
      invariant k <= |op.fields| && a <= |args| && |instr| == SIZE
      invariant fields == op.fields[k..] && left == args[a..]
      invariant Assembled(memaddr, op.relative, op.fields, args, op.code)
        == Assembled(memaddr, op.relative, fields, left, instr)
    {
      var o := op.fields[k];
      fields := fields[1..];
      if o.kind.Silent? {
        k := k + 1;
        continue;
      }
      if a == |args| {
        return Err(NumOperands);
      }
      var v := OperandValue(memaddr, op.relative, o, args[a]);
      if v.Err? {
        return Err(v.error);
      }
      left := left[1..];
      instr := Or(instr, Pack(o, v.value));
      k, a := k + 1, a + 1;
    }
    return Ok(instr);
  }
}
