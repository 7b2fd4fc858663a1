/** The instructions the decoder knows and how each is assembled: its opcode from the fields
    the processor's manual gives it, and the words behind it.  The decoder is proved to be the
    inverse of this, as far as length and control flow go. */
module Assembler {
  import opened Words
  import opened Branch
  import opened Decode
  import opened OpcodeMap

  type Register = n: int | 0 <= n < 8
  type Digit = n: int | 0 <= n < 16

  // ---------------------------------------------------------------- operands

  datatype Target =
    | DataRegister(n: Register)
    | AddressRegister(n: Register)
    | Address(n: Register)
    | Increment(n: Register)
    | Decrement(n: Register)
    | Displacement(n: Register, d: Word)
    | Indexed(n: Register, extension: Word)
    | AbsoluteShort(address: Word)
    | AbsoluteLong(high: Word, low: Word)
    | PcDisplacement(d: Word)
    | PcIndexed(extension: Word)
    | Immediate(data: seq<Word>)

  function Mode(t: Target): Register {
    match t
    case DataRegister(_) => 0
    case AddressRegister(_) => 1
    case Address(_) => 2
    case Increment(_) => 3
    case Decrement(_) => 4
    case Displacement(_, _) => 5
    case Indexed(_, _) => 6
    case _ => 7
  }

  /** The number of the register, or of the mode that needs none. */
  function Index(t: Target): Register {
    match t
    case AbsoluteShort(_) => 0
    case AbsoluteLong(_, _) => 1
    case PcDisplacement(_) => 2
    case PcIndexed(_) => 3
    case Immediate(_) => 4
    case _ => t.n
  }

  function Behind(t: Target): seq<Word> {
    match t
    case Displacement(_, d) => [d]
    case Indexed(_, e) => [e]
    case AbsoluteShort(a) => [a]
    case AbsoluteLong(high, low) => [high, low]
    case PcDisplacement(d) => [d]
    case PcIndexed(e) => [e]
    case Immediate(data) => data
    case _ => []
  }

  /** An immediate operand has as many words as its size needs. */
  predicate IsOf(t: Target, size: Size) {
    t.Immediate? ==> |t.data| == if size == LongSize then 2 else 1
  }

  lemma TargetLength(t: Target, size: Size)
    requires IsOf(t, size)
    ensures TargetWords(size, Mode(t), Index(t)) == Some(|Behind(t)|)
  {
  }

  // ---------------------------------------------------------------- instructions

  datatype Instruction =
    | Reset
    | Nop
    | Trapv
    | Rte
    | Rts
    | Rtr
    | Trap(vector: Digit)
    | Link(n: Register, d: Word)
    | Unlink(n: Register)
    | MoveUsp(fromUsp: bool, n: Register)
    | Jsr(target: Target)
    | Jmp(target: Target)
    | Bcc(cond: Digit, byte: Byte)
    | BccWord(cond: Digit, word: Word)
    | Dbcc(cond: Digit, n: Register, word: Word)
    | Scc(cond: Digit, target: Target)
    | Nbcd(target: Target)
    | Swap(n: Register)
    | Pea(target: Target)
    | Ext(long: bool, n: Register)
    | Movem(load: bool, long: bool, mask: Word, target: Target)
    | Lea(n: Register, target: Target)
    | Chk(n: Register, target: Target)
    | Tas(target: Target)
    | Tst(size: Size, target: Target)
    | Unary(unary: UnaryKind, size: Size, target: Target)
    | MoveFromSr(target: Target)
    | MoveToCcr(target: Target)
    | MoveToSr(target: Target)
    | Quick(data: Register, subtract: bool, size: Size, target: Target)
    | Moveq(n: Register, byte: Byte)
    | Move(size: Size, source: Target, target: Target)
    | ToStatus(status: StatusKind, wide: bool, word: Word)
    | BitByRegister(bit: BitKind, n: Register, target: Target)
    | BitByNumber(bit: BitKind, number: Word, target: Target)
    | Movep(n: Register, toMemory: bool, long: bool, a: Register, word: Word)
    | WithImmediate(op: ImmediateKind, size: Size, immediate: seq<Word>, target: Target)
    | Binary(binary: BinaryKind, n: Register, second: bool, size: Size, target: Target)
    | WithAddress(address: AddressKind, n: Register, long: bool, target: Target)
    | Decimal(add: bool, to: Register, memory: bool, n: Register)
    | Extended(add: bool, size: Size, to: Register, memory: bool, n: Register)
    | Cmpm(size: Size, to: Register, n: Register)
    | Exchange(to: Register, exchange: ExchangeKind, n: Register)
    | Multiply(signed: bool, n: Register, target: Target)
    | Divide(signed: bool, n: Register, target: Target)
    | ShiftMemory(shift: ShiftKind, left: bool, target: Target)
    | ShiftRegister(shift: ShiftKind, left: bool, size: Size, byRegister: bool, count: Register, n: Register)

  datatype UnaryKind = Negx | Clr | Neg | Not
  datatype StatusKind = OriTo | AndiTo | EoriTo
  datatype BitKind = Btst | Bchg | Bclr | Bset
  datatype ImmediateKind = Ori | Andi | Subi | Addi | Eori | Cmpi
  datatype BinaryKind = Or | Sub | CmpOrEor | And | Add
  datatype AddressKind = Suba | Cmpa | Adda
  datatype ExchangeKind = TwoData | TwoAddresses | DataAndAddress
  datatype ShiftKind = As | Ls | Rox | Ro

  function SizeBits(size: Size): nat {
    match size
    case ByteSize => 0
    case WordSize => 1
    case LongSize => 2
  }

  function LongBits(long: bool): nat {
    if long then 3 else 2
  }

  function BitBits(k: BitKind): nat {
    match k
    case Btst => 0
    case Bchg => 1
    case Bclr => 2
    case Bset => 3
  }

  function ShiftBits(k: ShiftKind): nat {
    match k
    case As => 0
    case Ls => 1
    case Rox => 2
    case Ro => 3
  }

  function ImmediateDigit(k: ImmediateKind): nat {
    match k
    case Ori => 0
    case Andi => 2
    case Subi => 4
    case Addi => 6
    case Eori => 10
    case Cmpi => 12
  }

  function StatusDigit(k: StatusKind): nat {
    match k
    case OriTo => 0
    case AndiTo => 2
    case EoriTo => 10
  }

  function UnaryDigit(k: UnaryKind): nat {
    match k
    case Negx => 0
    case Clr => 2
    case Neg => 4
    case Not => 6
  }

  function BinaryDigit(k: BinaryKind): nat {
    match k
    case Or => 8
    case Sub => 9
    case CmpOrEor => 11
    case And => 12
    case Add => 13
  }

  function AddressDigit(k: AddressKind): nat {
    match k
    case Suba => 9
    case Cmpa => 11
    case Adda => 13
  }

  /** What an opcode is put together from. */
  datatype Fields = Fields(line: Digit, second: Digit, size: nat, mode: Register, register: Register)

  function At(line: Digit, second: Digit, size: nat, t: Target): Fields {
    Fields(line, second, size, Mode(t), Index(t))
  }

  function WithByte(line: Digit, second: Digit, byte: Byte): Fields {
    Fields(line, second, byte / 0x40, byte / 8 % 8, byte % 8)
  }

  function FieldsOf(i: Instruction): (f: Fields)
    ensures f.size < 4
  {
    match i
    case Reset => Fields(4, 14, 1, 6, 0)
    case Nop => Fields(4, 14, 1, 6, 1)
    case Rte => Fields(4, 14, 1, 6, 3)
    case Rts => Fields(4, 14, 1, 6, 5)
    case Trapv => Fields(4, 14, 1, 6, 6)
    case Rtr => Fields(4, 14, 1, 6, 7)
    case Trap(v) => Fields(4, 14, 1, v / 8, v % 8)
    case Link(n, _) => Fields(4, 14, 1, 2, n)
    case Unlink(n) => Fields(4, 14, 1, 3, n)
    case MoveUsp(fromUsp, n) => Fields(4, 14, 1, 4 + B2I(fromUsp), n)
    case Jsr(t) => At(4, 14, 2, t)
    case Jmp(t) => At(4, 14, 3, t)
    case Bcc(cond, byte) => WithByte(6, cond, byte)
    case BccWord(cond, _) => WithByte(6, cond, 0)
    case Dbcc(cond, n, _) => Fields(5, cond, 3, 1, n)
    case Scc(cond, t) => At(5, cond, 3, t)
    case Nbcd(t) => At(4, 8, 0, t)
    case Swap(n) => Fields(4, 8, 1, 0, n)
    case Pea(t) => At(4, 8, 1, t)
    case Ext(long, n) => Fields(4, 8, LongBits(long), 0, n)
    case Movem(load, long, _, t) => At(4, if load then 12 else 8, LongBits(long), t)
    case Lea(n, t) => At(4, 2 * n + 1, 3, t)
    case Chk(n, t) => At(4, 2 * n + 1, 2, t)
    case Tas(t) => At(4, 10, 3, t)
    case Tst(size, t) => At(4, 10, SizeBits(size), t)
    case Unary(kind, size, t) => At(4, UnaryDigit(kind), SizeBits(size), t)
    case MoveFromSr(t) => At(4, 0, 3, t)
    case MoveToCcr(t) => At(4, 4, 3, t)
    case MoveToSr(t) => At(4, 6, 3, t)
    case Quick(data, subtract, size, t) => At(5, 2 * data + B2I(subtract), SizeBits(size), t)
    case Moveq(n, byte) => WithByte(7, 2 * n, byte)
    case Move(size, source, t) =>
      At(if size == ByteSize then 1 else if size == WordSize then 3 else 2,
         2 * Index(t) + Mode(t) / 4, Mode(t) % 4, source)
    case ToStatus(kind, wide, _) => Fields(0, StatusDigit(kind), B2I(wide), 7, 4)
    case BitByRegister(kind, n, t) => At(0, 2 * n + 1, BitBits(kind), t)
    case BitByNumber(kind, _, t) => At(0, 8, BitBits(kind), t)
    case Movep(n, toMemory, long, a, _) => Fields(0, 2 * n + 1, 2 * B2I(toMemory) + B2I(long), 1, a)
    case WithImmediate(op, size, _, t) => At(0, ImmediateDigit(op), SizeBits(size), t)
    case Binary(line, n, second, size, t) => At(BinaryDigit(line), 2 * n + B2I(second), SizeBits(size), t)
    case WithAddress(line, n, long, t) => At(AddressDigit(line), 2 * n + B2I(long), 3, t)
    case Decimal(add, to, memory, n) => Fields(if add then 12 else 8, 2 * to + 1, 0, B2I(memory), n)
    case Extended(add, size, to, memory, n) =>
      Fields(if add then 13 else 9, 2 * to + 1, SizeBits(size), B2I(memory), n)
    case Cmpm(size, to, n) => Fields(11, 2 * to + 1, SizeBits(size), 1, n)
    case Exchange(to, kind, n) =>
      Fields(12, 2 * to + 1, if kind == DataAndAddress then 2 else 1, if kind == TwoData then 0 else 1, n)
    case Multiply(signed, n, t) => At(12, 2 * n + B2I(signed), 3, t)
    case Divide(signed, n, t) => At(8, 2 * n + B2I(signed), 3, t)
    case ShiftMemory(kind, left, t) => At(14, 2 * ShiftBits(kind) + B2I(left), 3, t)
    case ShiftRegister(kind, left, size, byRegister, count, n) =>
      Fields(14, 2 * count + B2I(left), SizeBits(size), 4 * B2I(byRegister) + ShiftBits(kind), n)
  }

  /** The words behind the opcode. */
  function BehindOpcode(i: Instruction): seq<Word> {
    match i
    case Link(_, d) => [d]
    case BccWord(_, d) => [d]
    case Dbcc(_, _, d) => [d]
    case Movem(_, _, mask, t) => [mask] + Behind(t)
    case Move(_, source, t) => Behind(source) + Behind(t)
    case ToStatus(_, _, word) => [word]
    case BitByNumber(_, number, t) => [number] + Behind(t)
    case Movep(_, _, _, _, d) => [d]
    case WithImmediate(_, _, immediate, t) => immediate + Behind(t)
    case Jsr(t) => Behind(t)
    case Jmp(t) => Behind(t)
    case Scc(_, t) => Behind(t)
    case Nbcd(t) => Behind(t)
    case Pea(t) => Behind(t)
    case Lea(_, t) => Behind(t)
    case Chk(_, t) => Behind(t)
    case Tas(t) => Behind(t)
    case Tst(_, t) => Behind(t)
    case Unary(_, _, t) => Behind(t)
    case MoveFromSr(t) => Behind(t)
    case MoveToCcr(t) => Behind(t)
    case MoveToSr(t) => Behind(t)
    case Quick(_, _, _, t) => Behind(t)
    case BitByRegister(_, _, t) => Behind(t)
    case Binary(_, _, _, _, t) => Behind(t)
    case WithAddress(_, _, _, t) => Behind(t)
    case Multiply(_, _, t) => Behind(t)
    case Divide(_, _, t) => Behind(t)
    case ShiftMemory(_, _, t) => Behind(t)
    case _ => []
  }

  /** Operands of the right size; a branch by zero needs a second word; and three forms stand
      for other instructions. */
  predicate Valid(i: Instruction) {
    match i
    case Jsr(t) => IsOf(t, LongSize)
    case Jmp(t) => IsOf(t, LongSize)
    case Bcc(_, byte) => byte != 0
    case Scc(_, t) => IsOf(t, ByteSize) && !t.AddressRegister?
    case Nbcd(t) => IsOf(t, ByteSize)
    case Pea(t) => IsOf(t, LongSize)
    case Movem(load, long, _, t) => IsOf(t, if long then LongSize else WordSize) && (load || !t.DataRegister?)
    case Lea(_, t) => IsOf(t, LongSize)
    case Chk(_, t) => IsOf(t, WordSize)
    case Tas(t) => IsOf(t, ByteSize)
    case Tst(size, t) => IsOf(t, size)
    case Unary(_, size, t) => IsOf(t, size)
    case MoveFromSr(t) => IsOf(t, WordSize)
    case MoveToCcr(t) => IsOf(t, WordSize)
    case MoveToSr(t) => IsOf(t, WordSize)
    case Quick(_, _, size, t) => IsOf(t, size)
    case Move(size, source, t) => IsOf(source, size) && IsOf(t, size)
    case BitByRegister(_, _, t) => IsOf(t, ByteSize) && !t.AddressRegister?
    case BitByNumber(_, _, t) => IsOf(t, ByteSize)
    case WithImmediate(op, size, immediate, t) =>
      && IsOf(Immediate(immediate), size) && IsOf(t, size)
      && (op in {Ori, Andi, Eori} && t.Immediate? ==> size == LongSize)
    case Binary(_, _, _, size, t) => IsOf(t, size)
    case WithAddress(_, _, long, t) => IsOf(t, if long then LongSize else WordSize)
    case Multiply(_, _, t) => IsOf(t, WordSize)
    case Divide(_, _, t) => IsOf(t, WordSize)
    case ShiftMemory(_, _, t) => IsOf(t, WordSize)
    case _ => true
  }

  function Opcode(i: Instruction): Word {
    var f := FieldsOf(i);
    0x1000 * f.line + 0x100 * f.second + 0x40 * f.size + 8 * f.mode + f.register
  }

  function Assemble(i: Instruction): seq<Word> {
    [Opcode(i)] + BehindOpcode(i)
  }

  // ---------------------------------------------------------------- length

  lemma OpcodeIsComposed(i: Instruction)
    ensures var f := FieldsOf(i);
            Composed(Opcode(i), f.line, f.second, f.size, f.mode, f.register)
  {
    hide FieldsOf;
  }

  predicate MapHas(i: Instruction) {
    var f := FieldsOf(i);
    Extensions(f.line, f.second, f.size, f.mode, f.register) == Some(|BehindOpcode(i)|)
  }

  lemma LongTargets(i: Instruction)
    requires Valid(i) && (i.Jsr? || i.Jmp? || i.Lea? || i.Pea?)
    ensures MapHas(i)
  {
    TargetLength(i.target, LongSize);
    hide TargetWords, Behind, IsOf, Mode, Index, MoveLine, ImmediateLine, SizedWords;
  }

  lemma ByteTargets(i: Instruction)
    requires Valid(i) && (i.Scc? || i.Nbcd? || i.Tas? || i.BitByRegister?)
    ensures MapHas(i)
  {
    TargetLength(i.target, ByteSize);
    assert Mode(i.target) == 1 <==> i.target.AddressRegister?;
    hide TargetWords, Behind, IsOf, Mode, Index, MoveLine, SizedWords;
  }

  lemma WordTargets(i: Instruction)
    requires Valid(i) && (i.Chk? || i.MoveFromSr? || i.MoveToCcr? || i.MoveToSr?)
    ensures MapHas(i)
  {
    TargetLength(i.target, WordSize);
    hide TargetWords, Behind, IsOf, Mode, Index, MoveLine;
  }

  lemma HighTargets(i: Instruction)
    requires Valid(i) && (i.Multiply? || i.Divide? || i.ShiftMemory?)
    ensures MapHas(i)
  {
    TargetLength(i.target, WordSize);
    hide TargetWords, Behind, IsOf, Mode, Index, MoveLine;
  }

  lemma SizedTargets(i: Instruction)
    requires Valid(i) && (i.Tst? || i.Unary? || i.Quick? || i.Binary?)
    ensures MapHas(i)
  {
    TargetLength(i.target, i.size);
    hide TargetWords, Behind, IsOf, Mode, Index, MoveLine;
  }

  lemma AddressTargets(i: Instruction)
    requires Valid(i) && (i.WithAddress?)
    ensures MapHas(i)
  {
    TargetLength(i.target, if i.long then LongSize else WordSize);
    hide TargetWords, Behind, IsOf, Mode, Index, MoveLine;
  }

  lemma MoreWords(i: Instruction)
    requires Valid(i) && (i.Movem?)
    ensures MapHas(i)
  {
    TargetLength(i.target, if i.long then LongSize else WordSize);
    hide TargetWords, Behind, IsOf, Index, MoveLine;
  }

  lemma BitNumbers(i: Instruction)
    requires Valid(i) && (i.BitByNumber?)
    ensures MapHas(i)
  {
    TargetLength(i.target, ByteSize);
    hide TargetWords, Behind, IsOf, Mode, Index, MoveLine;
  }

  lemma Immediates(i: Instruction)
    requires Valid(i) && (i.WithImmediate?)
    ensures MapHas(i)
  {
    TargetLength(i.target, i.size);
    hide TargetWords, Behind, MoveLine;
  }

  lemma SwappedFields(mode: nat, index: nat)
    requires mode < 8 && index < 8
    ensures (2 * index + mode / 4) % 2 * 4 + mode % 4 == mode && (2 * index + mode / 4) / 2 == index
  {
  }

  lemma Moves(i: Instruction)
    requires Valid(i) && i.Move?
    ensures MapHas(i)
  {
    MoveLength(i.size, i.source, i.target);
    hide TargetWords, Behind, IsOf, Mode, Index, ImmediateLine, MiscellaneousLine, MoveLine;
  }

  lemma MoveLength(size: Size, source: Target, t: Target)
    requires IsOf(source, size) && IsOf(t, size)
    ensures MoveLine(size, 2 * Index(t) + Mode(t) / 4, Mode(t) % 4, Mode(source), Index(source))
            == Some(|Behind(source)| + |Behind(t)|)
  {
    hide TargetWords, Behind, IsOf, Mode, Index;
    TargetLength(source, size);
    TargetLength(t, size);
    SwappedFields(Mode(t), Index(t));
  }

  lemma Status(i: Instruction)
    requires Valid(i) && (i.ToStatus? || i.Movep?)
    ensures MapHas(i)
  {
    hide TargetWords, Behind, IsOf;
  }

  lemma Controls(i: Instruction)
    requires Valid(i) && (i.Reset? || i.Nop? || i.Trapv? || i.Rte? || i.Rts? || i.Rtr? || i.Trap? || i.Link?
                         || i.Unlink? || i.MoveUsp?)
    ensures MapHas(i)
  {
    hide TargetWords, Behind, IsOf;
  }

  lemma ByteParts(byte: Byte)
    ensures 0x40 * (byte / 0x40) + 8 * (byte / 8 % 8) + byte % 8 == byte
    ensures byte / 0x40 < 4
  {
  }

  lemma Branches(i: Instruction)
    requires Valid(i) && (i.Bcc? || i.BccWord? || i.Dbcc? || i.Moveq?)
    ensures MapHas(i)
  {
    if i.Bcc? {
      ByteParts(i.byte);
    }
    hide TargetWords, Behind, IsOf, MoveLine, ImmediateLine, MiscellaneousLine;
  }

  lemma Registers(i: Instruction)
    requires Valid(i) && (i.Swap? || i.Ext? || i.Decimal? || i.Extended? || i.Cmpm? || i.Exchange?
                         || i.ShiftRegister?)
    ensures MapHas(i)
  {
    hide Behind, IsOf;
  }

  /** The opcode map gives every instruction the words it is assembled with. */
  lemma MapGivesLength(i: Instruction)
    requires Valid(i)
    ensures MapHas(i)
  {
    hide *;
    if i.Jsr? || i.Jmp? || i.Lea? || i.Pea? {
      LongTargets(i);
    } else if i.Scc? || i.Nbcd? || i.Tas? || i.BitByRegister? {
      ByteTargets(i);
    } else if i.Chk? || i.MoveFromSr? || i.MoveToCcr? || i.MoveToSr? {
      WordTargets(i);
    } else if i.Multiply? || i.Divide? || i.ShiftMemory? {
      HighTargets(i);
    } else if i.Tst? || i.Unary? || i.Quick? || i.Binary? {
      SizedTargets(i);
    } else if i.WithAddress? {
      AddressTargets(i);
    } else if i.Movem? {
      MoreWords(i);
    } else if i.BitByNumber? {
      BitNumbers(i);
    } else if i.WithImmediate? {
      Immediates(i);
    } else if i.Move? {
      Moves(i);
    } else if i.ToStatus? || i.Movep? {
      Status(i);
    } else if i.Reset? || i.Nop? || i.Trapv? || i.Rte? || i.Rts? || i.Rtr? || i.Trap? || i.Link? || i.Unlink?
              || i.MoveUsp? {
      Controls(i);
    } else if i.Bcc? || i.BccWord? || i.Dbcc? || i.Moveq? {
      Branches(i);
    } else {
      Registers(i);
    }
  }

  // ---------------------------------------------------------------- control flow

  /** Where an operand that names a fixed place points, from an instruction at pc: relative
      displacements count from the word they are in. */
  function StaticAddress(t: Target, pc: Long): Option<Long> {
    match t
    case AbsoluteLong(high, low) => Some(high * 0x1_0000 + low)
    case AbsoluteShort(a) => Some(ToLong(Signed(a, WordSize)))
    case PcDisplacement(d) => Some(ToLong(pc + 2 + Signed(d, WordSize)))
    case _ => None
  }

  /** Address zero stands for an unknown target, as in the source. */
  function JumpTo(t: Target, pc: Long, isCall: bool): Flow {
    if t.Address? || t.Indexed? then (if isCall then CallIndirect else JumpIndirect)
    else match StaticAddress(t, pc)
      case None => if isCall then CallUnknown else JumpUnknown
      case Some(target) =>
        if isCall then (if target == 0 then CallUnknown else Call(target))
        else if target == 0 then JumpUnknown
        else Flow.Jump(target)
  }

  /** Condition zero is always true, condition one makes a branch a call. */
  function BranchTo(cond: Digit, target: Long): Flow {
    if cond == 0 then Flow.Jump(target) else if cond == 1 then Call(target) else Flow.Branch(target)
  }

  function FlowFrom(i: Instruction, pc: Long): Flow {
    match i
    case Jsr(t) => JumpTo(t, pc, true)
    case Jmp(t) => JumpTo(t, pc, false)
    case Bcc(cond, byte) => BranchTo(cond, ToLong(pc + 2 + Signed(byte, ByteSize)))
    case BccWord(cond, word) => BranchTo(cond, ToLong(pc + 2 + Signed(word, WordSize)))
    case Dbcc(_, _, word) => Flow.Branch(ToLong(pc + 2 + Signed(word, WordSize)))
    case Rte => Return
    case Rts => Return
    case Rtr => Return
    case _ => Plain
  }

  /** The decoder's control flow by fields. */
  function FieldFlow(rom: seq<Byte>, pc: Long, w: Word, pcAfter: Long, line: nat, b: nat, s: nat, m: nat, x: nat): Flow
    requires b < 16 && 0x40 * s + 8 * m + x < 0x100
  {
    if line == 5 && s == 3 && m == 1 then Flow.Branch(BranchTarget(pc, WordSize, RomWord(rom, pc + 2)))
    else if line == 6 then
      BranchTo(b, if 0x40 * s + 8 * m + x == 0 then BranchTarget(pc, WordSize, RomWord(rom, pc + 2))
                  else BranchTarget(pc, ByteSize, 0x40 * s + 8 * m + x))
    else if line == 4 && b == 14 && s >= 2 then JumpFlow(rom, pc, w, pcAfter, s == 2)
    else if line == 4 && b == 14 && s == 1 && m == 6 && (x == 3 || x == 5 || x == 7) then Return
    else Plain
  }

  lemma FlowOfControl(rom: seq<Byte>, pc: Long, w: Word, pcAfter: Long, line: nat, b: nat, s: nat, m: nat, x: nat)
    requires Composed(w, line, b, s, m, x) && line == 4
    ensures FlowOf(rom, pc, w, pcAfter) == FieldFlow(rom, pc, w, pcAfter, line, b, s, m, x)
  {
    MiddlePatterns(w, line, b, s, m, x);
    FourTailPatterns(w, line, b, s, m, x);
    OpcodeMap.Fields(w, line, b, s, m, x);
    hide Composed, Matches, Bits, JumpFlow, BranchTarget, BranchTo, RomWord;
  }

  lemma FlowOfBranches(rom: seq<Byte>, pc: Long, w: Word, pcAfter: Long, line: nat, b: nat, s: nat, m: nat, x: nat)
    requires Composed(w, line, b, s, m, x) && line == 6
    ensures FlowOf(rom, pc, w, pcAfter) == FieldFlow(rom, pc, w, pcAfter, line, b, s, m, x)
  {
    MiddlePatterns(w, line, b, s, m, x);
    BranchFields(w, line, b, s, m, x);
    hide Composed, Matches, Bits, JumpFlow, BranchTarget, RomWord;
  }

  lemma BranchFields(w: Word, line: nat, b: nat, s: nat, m: nat, x: nat)
    requires Composed(w, line, b, s, m, x)
    ensures b < 16 && 0x40 * s + 8 * m + x < 0x100 && Bits(w, 8, 4) == b
    ensures Bits(w, 0, 8) == Bits(w, 0, 8) % 0x100 == 0x40 * s + 8 * m + x
  {
    hide Bits;
    OpcodeMap.Fields(w, line, b, s, m, x);
    ByteIsSmall(0x40 * s + 8 * m + x);
  }

  lemma ByteIsSmall(v: nat)
    requires v < 0x100
    ensures v % 0x100 == v
  {
  }

  lemma FlowOfOthers(rom: seq<Byte>, pc: Long, w: Word, pcAfter: Long, line: nat, b: nat, s: nat, m: nat, x: nat)
    requires Composed(w, line, b, s, m, x) && line != 4 && line != 6
    ensures FlowOf(rom, pc, w, pcAfter) == FieldFlow(rom, pc, w, pcAfter, line, b, s, m, x)
  {
    MiddlePatterns(w, line, b, s, m, x);
    FourTailPatterns(w, line, b, s, m, x);
    OpcodeMap.Fields(w, line, b, s, m, x);
    hide Composed, Matches, Bits, JumpFlow, BranchTarget, BranchTo, RomWord;
  }

  lemma FlowByFields(rom: seq<Byte>, pc: Long, w: Word, pcAfter: Long, line: nat, b: nat, s: nat, m: nat, x: nat)
    requires Composed(w, line, b, s, m, x)
    ensures FlowOf(rom, pc, w, pcAfter) == FieldFlow(rom, pc, w, pcAfter, line, b, s, m, x)
  {
    hide FlowOf, FieldFlow, Composed;
    if line == 4 {
      FlowOfControl(rom, pc, w, pcAfter, line, b, s, m, x);
    } else if line == 6 {
      FlowOfBranches(rom, pc, w, pcAfter, line, b, s, m, x);
    } else {
      FlowOfOthers(rom, pc, w, pcAfter, line, b, s, m, x);
    }
  }

  /** The words stand in the ROM at an address. */
  ghost predicate ReadsAt(rom: seq<Byte>, at: nat, words: seq<Word>) {
    forall k :: 0 <= k < |words| ==> RomWord(rom, at + 2 * k) == words[k]
  }

  lemma WordRead(rom: seq<Byte>, at: nat, words: seq<Word>, k: nat)
    requires ReadsAt(rom, at, words) && k < |words|
    ensures RomWord(rom, at + 2 * k) == words[k]
  {
  }

  /** The analyser's static target is the address the operand points to. */
  lemma StaticAgrees(t: Target, pc: Long, first: Word, second: Word)
    requires IsOf(t, LongSize)
    requires |Behind(t)| >= 1 ==> first == Behind(t)[0]
    requires |Behind(t)| >= 2 ==> second == Behind(t)[1]
    ensures StaticTarget(Mode(t), Index(t), first, second, ToLong(pc + 2 * (1 + |Behind(t)|)))
            == if StaticAddress(t, pc).Some? then StaticAddress(t, pc).value else 0
  {
    match t {
      case PcDisplacement(d) => AddWrap(pc + 4, -2 + Signed(d, WordSize));
      case AbsoluteLong(high, low) => SmallLong(high * 0x1_0000 + low);
      case _ =>
    }
    hide Signed, ToLong;
  }

  lemma SmallLong(v: int)
    requires 0 <= v < 0x1_0000_0000
    ensures ToLong(v) == v
  {
  }

  lemma JumpAgrees(rom: seq<Byte>, pc: Long, t: Target, w: Word, line: nat, b: nat, s: nat)
    requires Composed(w, line, b, s, Mode(t), Index(t)) && ReadsAt(rom, pc + 2, Behind(t))
    requires IsOf(t, LongSize)
    ensures JumpFlow(rom, pc, w, ToLong(pc + 2 * (1 + |Behind(t)|)), s == 2) == JumpTo(t, pc, s == 2)
  {
    hide StaticTarget, StaticAddress, Bits, RomWord, ToLong, ReadsAt, Composed, Behind, IsOf;
    OpcodeMap.Fields(w, line, b, s, Mode(t), Index(t));
    if |Behind(t)| >= 1 {
      WordRead(rom, pc + 2, Behind(t), 0);
    }
    if |Behind(t)| >= 2 {
      WordRead(rom, pc + 2, Behind(t), 1);
    }
    StaticAgrees(t, pc, RomWord(rom, pc + 2), RomWord(rom, pc + 4));
    ModeTells(t, pc);
    hide Mode, Index;
  }

  lemma ModeTells(t: Target, pc: Long)
    ensures Mode(t) == 2 <==> t.Address?
    ensures Mode(t) == 6 <==> t.Indexed?
  {
  }

  lemma BranchAgrees(rom: seq<Byte>, pc: Long, i: Instruction)
    requires Valid(i) && (i.Bcc? || i.BccWord? || i.Dbcc?) && ReadsAt(rom, pc + 2, BehindOpcode(i))
    ensures FlowOf(rom, pc, Opcode(i), ToLong(pc + 2 * |Assemble(i)|)) == FlowFrom(i, pc)
  {
    hide FlowOf, RomWord, Signed, ToLong, Composed, ReadsAt;
    var f := FieldsOf(i);
    OpcodeIsComposed(i);
    FlowByFields(rom, pc, Opcode(i), ToLong(pc + 2 * |Assemble(i)|), f.line, f.second, f.size, f.mode, f.register);
    if i.Bcc? {
      ByteParts(i.byte);
    } else {
      WordRead(rom, pc + 2, BehindOpcode(i), 0);
    }
    hide Opcode, JumpFlow;
  }

  lemma JumpsAgree(rom: seq<Byte>, pc: Long, i: Instruction)
    requires Valid(i) && (i.Jsr? || i.Jmp?) && ReadsAt(rom, pc + 2, BehindOpcode(i))
    ensures FlowOf(rom, pc, Opcode(i), ToLong(pc + 2 * |Assemble(i)|)) == FlowFrom(i, pc)
  {
    hide FlowOf, RomWord, JumpFlow, JumpTo, ToLong, Composed, ReadsAt, Mode, Index, Behind, IsOf;
    var f := FieldsOf(i);
    OpcodeIsComposed(i);
    FlowByFields(rom, pc, Opcode(i), ToLong(pc + 2 * |Assemble(i)|), f.line, f.second, f.size, f.mode, f.register);
    JumpAgrees(rom, pc, i.target, Opcode(i), f.line, f.second, f.size);
    hide Opcode;
  }

  predicate TransfersControl(i: Instruction) {
    i.Bcc? || i.BccWord? || i.Dbcc? || i.Jsr? || i.Jmp? || i.Rte? || i.Rts? || i.Rtr?
  }

  /** The fields tell whether an instruction transfers control. */
  lemma ControlFields(i: Instruction)
    requires Valid(i) && !TransfersControl(i)
    ensures var f := FieldsOf(i);
            && !(f.line == 5 && f.size == 3 && f.mode == 1) && f.line != 6
            && !(f.line == 4 && f.second == 14 && f.size >= 2)
            && !(f.line == 4 && f.second == 14 && f.size == 1 && f.mode == 6
                 && (f.register == 3 || f.register == 5 || f.register == 7))
  {
    hide Index, IsOf, BehindOpcode;
    if i.Scc? {
      assert Mode(i.target) == 1 <==> i.target.AddressRegister?;
    }
    hide Mode;
  }

  lemma PlainAgrees(rom: seq<Byte>, pc: Long, i: Instruction)
    requires Valid(i) && !(i.Bcc? || i.BccWord? || i.Dbcc? || i.Jsr? || i.Jmp?)
    ensures FlowOf(rom, pc, Opcode(i), ToLong(pc + 2 * |Assemble(i)|)) == FlowFrom(i, pc)
  {
    hide FlowOf, RomWord, JumpFlow, ToLong, Composed, BehindOpcode, IsOf;
    var f := FieldsOf(i);
    OpcodeIsComposed(i);
    FlowByFields(rom, pc, Opcode(i), ToLong(pc + 2 * |Assemble(i)|), f.line, f.second, f.size, f.mode, f.register);
    if !TransfersControl(i) {
      ControlFields(i);
      hide FieldsOf, Valid;
    }
    hide Opcode;
  }

  lemma Tail(rom: seq<Byte>, pc: Long, i: Instruction)
    requires ReadsAt(rom, pc, Assemble(i))
    ensures RomWord(rom, pc) == Opcode(i) && ReadsAt(rom, pc + 2, BehindOpcode(i))
  {
    hide RomWord, Opcode, BehindOpcode;
    WordRead(rom, pc, Assemble(i), 0);
    forall k | 0 <= k < |BehindOpcode(i)|
      ensures RomWord(rom, pc + 2 + 2 * k) == BehindOpcode(i)[k]
    {
      WordRead(rom, pc, Assemble(i), k + 1);
    }
  }

  /** Decoding what was assembled gives its length and its control flow. */
  lemma DecodesAssembled(rom: seq<Byte>, pc: Long, i: Instruction)
    requires Valid(i) && ReadsAt(rom, pc, Assemble(i))
    ensures InstAt(rom, pc) == Some(Inst(pc, ToLong(pc + 2 * |Assemble(i)|), FlowFrom(i, pc)))
  {
    hide RomWord, ReadsAt, FlowOf, ExtensionWords, Extensions, Opcode, BehindOpcode, FieldsOf, FlowFrom, Valid;
    hide Composed;
    var f := FieldsOf(i);
    Tail(rom, pc, i);
    OpcodeIsComposed(i);
    PatternsAreTheMap(Opcode(i), f.line, f.second, f.size, f.mode, f.register);
    MapGivesLength(i);
    if i.Bcc? || i.BccWord? || i.Dbcc? {
      BranchAgrees(rom, pc, i);
    } else if i.Jsr? || i.Jmp? {
      JumpsAgree(rom, pc, i);
    } else {
      PlainAgrees(rom, pc, i);
    }
  }

  // ---------------------------------------------------------------- every decodable opcode

  lemma TargetAt(rom: seq<Byte>, at: nat, size: Size, m: nat, x: nat) returns (t: Target)
    requires m < 8 && x < 8 && TargetWords(size, m, x).Some?
    ensures Mode(t) == m && Index(t) == x && IsOf(t, size) && ReadsAt(rom, at, Behind(t))
    ensures |Behind(t)| == TargetWords(size, m, x).value
  {
    hide RomWord;
    var first, second := RomWord(rom, at), RomWord(rom, at + 2);
    t := match m
      case 0 => DataRegister(x)
      case 1 => AddressRegister(x)
      case 2 => Address(x)
      case 3 => Increment(x)
      case 4 => Decrement(x)
      case 5 => Displacement(x, first)
      case 6 => Indexed(x, first)
      case _ =>
        match x
        case 0 => AbsoluteShort(first)
        case 1 => AbsoluteLong(first, second)
        case 2 => PcDisplacement(first)
        case 3 => PcIndexed(first)
        case _ => Immediate(if size == LongSize then [first, second] else [first]);
  }

  function SizeOf(s: nat): Size {
    if s == 0 then ByteSize else if s == 1 then WordSize else LongSize
  }

  lemma SizedAt(rom: seq<Byte>, at: nat, s: nat, m: nat, x: nat) returns (t: Target)
    requires m < 8 && x < 8 && SizedWords(s, m, x).Some?
    ensures s < 3 && SizeBits(SizeOf(s)) == s
    ensures Mode(t) == m && Index(t) == x && IsOf(t, SizeOf(s)) && ReadsAt(rom, at, Behind(t))
  {
    hide Mode, Index, IsOf, Behind, TargetWords, ReadsAt;
    t := TargetAt(rom, at, SizeOf(s), m, x);
  }

  ghost predicate Stands(rom: seq<Byte>, pc: Long, i: Instruction, f: Fields) {
    Valid(i) && FieldsOf(i) == f && ReadsAt(rom, pc + 2, BehindOpcode(i))
  }

  lemma OneWord(rom: seq<Byte>, at: nat)
    ensures ReadsAt(rom, at, [RomWord(rom, at)]) && ReadsAt(rom, at, [])
    ensures ReadsAt(rom, at, [RomWord(rom, at), RomWord(rom, at + 2)])
  {
  }

  lemma Joined(rom: seq<Byte>, at: nat, one: seq<Word>, other: seq<Word>)
    requires ReadsAt(rom, at, one) && ReadsAt(rom, at + 2 * |one|, other)
    ensures ReadsAt(rom, at, one + other)
  {
    hide RomWord;
    forall k | 0 <= k < |one + other|
      ensures RomWord(rom, at + 2 * k) == (one + other)[k]
    {
      if k < |one| {
        WordRead(rom, at, one, k);
      } else {
        WordRead(rom, at + 2 * |one|, other, k - |one|);
        assert at + 2 * |one| + 2 * (k - |one|) == at + 2 * k;
      }
    }
  }

  function BitOf(s: nat): BitKind {
    match s
    case 0 => Btst
    case 1 => Bchg
    case 2 => Bclr
    case _ => Bset
  }

  function ShiftOf(k: nat): ShiftKind {
    match k
    case 0 => As
    case 1 => Ls
    case 2 => Rox
    case _ => Ro
  }

  function ImmediateOf(b: nat): ImmediateKind {
    match b
    case 0 => Ori
    case 2 => Andi
    case 4 => Subi
    case 6 => Addi
    case 10 => Eori
    case _ => Cmpi
  }

  lemma BitLine(rom: seq<Byte>, pc: Long, b: Digit, s: nat, m: Register, x: Register) returns (i: Instruction)
    requires s < 4 && (b % 2 == 1 || b == 8) && ImmediateLine(b, s, m, x).Some?
    ensures Stands(rom, pc, i, Fields(0, b, s, m, x))
  {
    hide TargetWords, RomWord, ReadsAt, Behind, Index;
    OneWord(rom, pc + 2);
    var word := RomWord(rom, pc + 2);
    if b == 8 {
      var t := TargetAt(rom, pc + 4, ByteSize, m, x);
      Joined(rom, pc + 2, [word], Behind(t));
      i := BitByNumber(BitOf(s), word, t);
    } else if m == 1 {
      i := Movep(b / 2, s >= 2, s % 2 == 1, x, word);
    } else {
      var t := TargetAt(rom, pc + 2, ByteSize, m, x);
      i := BitByRegister(BitOf(s), b / 2, t);
    }
  }

  lemma WithImmediateLine(rom: seq<Byte>, pc: Long, b: Digit, s: nat, m: Register, x: Register)
    returns (i: Instruction)
    requires s < 4 && b % 2 == 0 && b != 8 && ImmediateLine(b, s, m, x).Some?
    ensures Stands(rom, pc, i, Fields(0, b, s, m, x))
  {
    hide TargetWords, RomWord, ReadsAt, Behind, Index, Mode;
    OneWord(rom, pc + 2);
    if b in {0, 2, 10} && s < 2 && m == 7 && x == 4 {
      i := ToStatus(if b == 0 then OriTo else if b == 2 then AndiTo else EoriTo, s == 1, RomWord(rom, pc + 2));
    } else {
      var data := if s == 2 then [RomWord(rom, pc + 2), RomWord(rom, pc + 4)] else [RomWord(rom, pc + 2)];
      var t := SizedAt(rom, pc + 2 + 2 * |data|, s, m, x);
      ImmediateTells(t);
      Joined(rom, pc + 2, data, Behind(t));
      i := WithImmediate(ImmediateOf(b), SizeOf(s), data, t);
    }
  }

  lemma ImmediateTells(t: Target)
    ensures t.Immediate? <==> Mode(t) == 7 && Index(t) == 4
  {
  }

  lemma MoveAt(rom: seq<Byte>, pc: Long, line: Digit, b: Digit, s: nat, m: Register, x: Register)
    returns (i: Instruction)
    requires s < 4 && 1 <= line <= 3 && Extensions(line, b, s, m, x).Some?
    ensures Stands(rom, pc, i, Fields(line, b, s, m, x))
  {
    hide TargetWords, RomWord, ReadsAt, Behind, Index, Mode, IsOf, ImmediateLine, MiscellaneousLine;
    var size := if line == 1 then ByteSize else if line == 3 then WordSize else LongSize;
    var source := TargetAt(rom, pc + 2, size, m, x);
    var t := TargetAt(rom, pc + 2 + 2 * |Behind(source)|, size, b % 2 * 4 + s, b / 2);
    Joined(rom, pc + 2, Behind(source), Behind(t));
    i := Move(size, source, t);
  }

  lemma UnaryLine(rom: seq<Byte>, pc: Long, b: Digit, s: nat, m: Register, x: Register) returns (i: Instruction)
    requires s < 4 && (b < 8 || b == 10 || b % 2 == 1) && MiscellaneousLine(b, s, m, x).Some?
    ensures Stands(rom, pc, i, Fields(4, b, s, m, x))
  {
    hide TargetWords, RomWord, ReadsAt, Behind, Index, Mode, IsOf;
    if b % 2 == 1 {
      var t := TargetAt(rom, pc + 2, if s == 3 then LongSize else WordSize, m, x);
      i := if s == 3 then Lea(b / 2, t) else Chk(b / 2, t);
    } else if s == 3 {
      var t := TargetAt(rom, pc + 2, if b == 10 then ByteSize else WordSize, m, x);
      i := if b == 0 then MoveFromSr(t) else if b == 4 then MoveToCcr(t) else if b == 6 then MoveToSr(t) else Tas(t);
    } else {
      var t := SizedAt(rom, pc + 2, s, m, x);
      var size := SizeOf(s);
      i := if b == 10 then Tst(size, t)
        else Unary(if b == 0 then Negx else if b == 2 then Clr else if b == 4 then Neg else Not, size, t);
    }
  }

  lemma MovemLine(rom: seq<Byte>, pc: Long, b: Digit, s: nat, m: Register, x: Register) returns (i: Instruction)
    requires s < 4 && (b == 8 || b == 12) && MiscellaneousLine(b, s, m, x).Some?
    ensures Stands(rom, pc, i, Fields(4, b, s, m, x))
  {
    hide TargetWords, RomWord, ReadsAt, Behind, Index, IsOf;
    OneWord(rom, pc + 2);
    if s < 2 {
      var t := TargetAt(rom, pc + 2, if s == 0 then ByteSize else LongSize, m, x);
      i := if s == 0 then Nbcd(t) else Pea(t);
    } else if b == 8 && m == 0 {
      i := Ext(s == 3, x);
    } else {
      var word := RomWord(rom, pc + 2);
      var t := TargetAt(rom, pc + 4, if s == 3 then LongSize else WordSize, m, x);
      Joined(rom, pc + 2, [word], Behind(t));
      i := Movem(b == 12, s == 3, word, t);
    }
  }

  lemma ControlLine(rom: seq<Byte>, pc: Long, s: nat, m: Register, x: Register) returns (i: Instruction)
    requires s < 4 && MiscellaneousLine(14, s, m, x).Some?
    ensures Stands(rom, pc, i, Fields(4, 14, s, m, x))
  {
    hide TargetWords, RomWord, ReadsAt, Behind, Index, Mode, IsOf;
    OneWord(rom, pc + 2);
    if s >= 2 {
      var t := TargetAt(rom, pc + 2, LongSize, m, x);
      i := if s == 2 then Jsr(t) else Jmp(t);
    } else if m < 2 {
      i := Trap(8 * m + x);
    } else if m == 2 {
      i := Link(x, RomWord(rom, pc + 2));
    } else if m == 3 {
      i := Unlink(x);
    } else if m < 6 {
      i := MoveUsp(m == 5, x);
    } else {
      i := if x == 0 then Reset else if x == 1 then Nop else if x == 3 then Rte else if x == 5 then Rts
        else if x == 6 then Trapv else Rtr;
    }
  }

  lemma QuickAt(rom: seq<Byte>, pc: Long, b: Digit, s: nat, m: Register, x: Register) returns (i: Instruction)
    requires s < 4 && Extensions(5, b, s, m, x).Some?
    ensures Stands(rom, pc, i, Fields(5, b, s, m, x))
  {
    hide TargetWords, RomWord, ReadsAt, Behind, Index, IsOf, ImmediateLine, MiscellaneousLine, MoveLine;
    OneWord(rom, pc + 2);
    if s == 3 && m == 1 {
      i := Dbcc(b, x, RomWord(rom, pc + 2));
    } else if s == 3 {
      var t := TargetAt(rom, pc + 2, ByteSize, m, x);
      i := Scc(b, t);
    } else {
      var t := SizedAt(rom, pc + 2, s, m, x);
      i := Quick(b / 2, b % 2 == 1, SizeOf(s), t);
    }
  }

  lemma ByteAt(s: nat, m: Register, x: Register) returns (byte: Byte)
    requires s < 4
    ensures byte == 0x40 * s + 8 * m + x && byte / 0x40 == s && byte / 8 % 8 == m && byte % 8 == x
  {
    byte := 0x40 * s + 8 * m + x;
    DivUnique(byte, 0x40, s, 8 * m + x);
    DivUnique(byte, 8, 8 * s + m, x);
  }

  lemma BranchAt(rom: seq<Byte>, pc: Long, line: Digit, b: Digit, s: nat, m: Register, x: Register)
    returns (i: Instruction)
    requires s < 4 && (line == 6 || line == 7) && Extensions(line, b, s, m, x).Some?
    ensures Stands(rom, pc, i, Fields(line, b, s, m, x))
  {
    hide TargetWords, RomWord, ReadsAt, Behind, ImmediateLine, MiscellaneousLine, MoveLine;
    OneWord(rom, pc + 2);
    var byte := ByteAt(s, m, x);
    i := if line == 7 then Moveq(b / 2, byte)
      else if byte == 0 then BccWord(b, RomWord(rom, pc + 2))
      else Bcc(b, byte);
  }

  lemma BinaryAt(rom: seq<Byte>, pc: Long, line: Digit, b: Digit, s: nat, m: Register, x: Register)
    returns (i: Instruction)
    requires s < 3 && line in {8, 9, 11, 12, 13} && Extensions(line, b, s, m, x).Some?
    ensures Stands(rom, pc, i, Fields(line, b, s, m, x))
  {
    hide TargetWords, RomWord, ReadsAt, Behind, Index, Mode, IsOf, ImmediateLine, MiscellaneousLine, MoveLine;
    var t := SizedAt(rom, pc + 2, s, m, x);
    var kind := match line case 8 => Or case 9 => Sub case 11 => CmpOrEor case 12 => And case _ => Add;
    i := Binary(kind, b / 2, b % 2 == 1, SizeOf(s), t);
  }

  lemma AddressAt(rom: seq<Byte>, pc: Long, line: Digit, b: Digit, m: Register, x: Register)
    returns (i: Instruction)
    requires line in {8, 9, 11, 12, 13} && Extensions(line, b, 3, m, x).Some?
    ensures Stands(rom, pc, i, Fields(line, b, 3, m, x))
  {
    hide TargetWords, RomWord, ReadsAt, Behind, Index, Mode, IsOf, ImmediateLine, MiscellaneousLine, MoveLine;
    var long := line % 2 == 1 && b % 2 == 1;
    var t := TargetAt(rom, pc + 2, if long then LongSize else WordSize, m, x);
    i := match line
      case 8 => Divide(b % 2 == 1, b / 2, t)
      case 12 => Multiply(b % 2 == 1, b / 2, t)
      case 9 => WithAddress(Suba, b / 2, long, t)
      case 11 => WithAddress(Cmpa, b / 2, long, t)
      case _ => WithAddress(Adda, b / 2, long, t);
  }

  lemma ShiftAt(rom: seq<Byte>, pc: Long, b: Digit, s: nat, m: Register, x: Register) returns (i: Instruction)
    requires s < 4 && Extensions(14, b, s, m, x).Some?
    ensures Stands(rom, pc, i, Fields(14, b, s, m, x))
  {
    hide TargetWords, RomWord, ReadsAt, Behind, Index, Mode, IsOf, ImmediateLine, MiscellaneousLine, MoveLine;
    OneWord(rom, pc + 2);
    if s < 3 {
      i := ShiftRegister(ShiftOf(m % 4), b % 2 == 1, SizeOf(s), m >= 4, b / 2, x);
    } else {
      var t := TargetAt(rom, pc + 2, WordSize, m, x);
      i := ShiftMemory(ShiftOf(b / 2), b % 2 == 1, t);
    }
  }

  /** Whatever can be decoded has been assembled from some instruction. */
  lemma InstructionAt(rom: seq<Byte>, pc: Long) returns (i: Instruction)
    requires InstAt(rom, pc).Some?
    ensures Valid(i) && ReadsAt(rom, pc, Assemble(i))
  {
    hide RomWord, ReadsAt, FlowOf, ExtensionWords, BehindOpcode, FieldsOf, Valid, MoveLine;
    var w := RomWord(rom, pc);
    var line, b, s, m, x := Compose(w);
    PatternsAreTheMap(w, line, b, s, m, x);
    if line == 0 {
      if b % 2 == 1 || b == 8 {
        i := BitLine(rom, pc, b, s, m, x);
      } else {
        i := WithImmediateLine(rom, pc, b, s, m, x);
      }
    } else if line <= 3 {
      i := MoveAt(rom, pc, line, b, s, m, x);
    } else if line == 4 {
      if b == 14 {
        i := ControlLine(rom, pc, s, m, x);
      } else if b == 8 || b == 12 {
        i := MovemLine(rom, pc, b, s, m, x);
      } else {
        i := UnaryLine(rom, pc, b, s, m, x);
      }
    } else if line == 5 {
      i := QuickAt(rom, pc, b, s, m, x);
    } else if line <= 7 {
      i := BranchAt(rom, pc, line, b, s, m, x);
    } else if line == 14 {
      i := ShiftAt(rom, pc, b, s, m, x);
    } else if s < 3 {
      i := BinaryAt(rom, pc, line, b, s, m, x);
    } else {
      i := AddressAt(rom, pc, line, b, m, x);
    }
    StandsWhole(rom, pc, i, Fields(line, b, s, m, x));
  }

  lemma StandsWhole(rom: seq<Byte>, pc: Long, i: Instruction, f: Fields)
    requires Stands(rom, pc, i, f) && Composed(RomWord(rom, pc), f.line, f.second, f.size, f.mode, f.register)
    ensures Valid(i) && ReadsAt(rom, pc, Assemble(i))
  {
    hide ReadsAt, BehindOpcode, FieldsOf, Valid;
    assert RomWord(rom, pc) == Opcode(i);
    hide RomWord;
    OneWord(rom, pc);
    Joined(rom, pc, [Opcode(i)], BehindOpcode(i));
  }

  /** The decoder inverts the assembler: an instruction is decoded at an address if and only if
      the words that stand there are those of some assembled instruction, and then with its
      length and its control flow. */
  lemma DecodesExactlyTheAssembled(rom: seq<Byte>, pc: Long, inst: Inst)
    ensures InstAt(rom, pc) == Some(inst)
            <==> exists i :: Valid(i) && ReadsAt(rom, pc, Assemble(i))
                   && inst == Inst(pc, ToLong(pc + 2 * |Assemble(i)|), FlowFrom(i, pc))
  {
    hide InstAt, ReadsAt, Assemble, FlowFrom, Valid;
    forall i | Valid(i) && ReadsAt(rom, pc, Assemble(i))
      ensures InstAt(rom, pc) == Some(Inst(pc, ToLong(pc + 2 * |Assemble(i)|), FlowFrom(i, pc)))
    {
      DecodesAssembled(rom, pc, i);
    }
    if InstAt(rom, pc).Some? {
      var i := InstructionAt(rom, pc);
    }
  }
}
