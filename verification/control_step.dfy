/** The interpreter decodes a branch or a jump word by word and executes it: it lands where the
    analyser's edges lead (src/m68k/instruction/decode.cpp, src/m68k/instruction/execute.cpp). */
module ControlStep {
  import opened Words
  import opened CpuRegisters
  import opened Alu
  import opened Conditions
  import opened Ram
  import opened Frames
  import opened Branch
  import opened Decode
  import opened OpcodeMap
  import opened Assembler
  import CodeGraph

  // ---------------------------------------------------------------- decoding word by word

  /** A word of the ROM, and the program counter behind it. */
  method ReadWord(rom: seq<Byte>, regs: Registers) returns (word: Word)
    modifies regs`pc
    ensures word == RomWord(rom, old(regs.pc)) && regs.pc == ToLong(old(regs.pc) + 2)
  {
    word := RomWord(rom, regs.pc);
    regs.pc := ToLong(regs.pc + 2);
  }

  lemma RomWordWraps(rom: seq<Byte>, a: nat)
    ensures RomWord(rom, ToLong(a)) == RomWord(rom, a)
  {
    var q, r := a / 0x1_0000_0000, a % 0x1_0000_0000;
    SameByte(q, r);
    SameByte(q, r + 1);
  }

  lemma SameByte(q: nat, r: nat)
    ensures (0x1_0000_0000 * q + r) % 0x100_0000 == r % 0x100_0000
  {
    DivUnique(0x1_0000_0000 * q + r, 0x100_0000, 0x100 * q + r / 0x100_0000, r % 0x100_0000);
  }

  /** An operand with the words behind it; the program counter moves over exactly these. */
  method ParseTarget(rom: seq<Byte>, regs: Registers, size: Size, mode: Register, xn: Register)
    returns (t: Option<Target>)
    modifies regs`pc
    ensures t.Some? <==> TargetWords(size, mode, xn).Some?
    ensures t.Some? ==> Mode(t.value) == mode && Index(t.value) == xn && IsOf(t.value, size)
    ensures t.Some? ==> ReadsAt(rom, old(regs.pc), Behind(t.value))
    ensures regs.pc == if t.Some? then ToLong(old(regs.pc) + 2 * |Behind(t.value)|) else old(regs.pc)
  {
    hide RomWord;
    ghost var pc: int := regs.pc;
    RomWordWraps(rom, pc + 2);
    AddWrap(pc + 2, 2);
    match mode
    case 0 => t := Some(DataRegister(xn));
    case 1 => t := Some(AddressRegister(xn));
    case 2 => t := Some(Address(xn));
    case 3 => t := Some(Increment(xn));
    case 4 => t := Some(Decrement(xn));
    case 5 =>
      var word := ReadWord(rom, regs);
      t := Some(Displacement(xn, word));
    case 6 =>
      var word := ReadWord(rom, regs);
      t := Some(Indexed(xn, word));
    case 7 =>
      match xn {
        case 0 =>
          var word := ReadWord(rom, regs);
          t := Some(AbsoluteShort(word));
        case 1 =>
          var word0 := ReadWord(rom, regs);
          var word1 := ReadWord(rom, regs);
          t := Some(AbsoluteLong(word0, word1));
        case 2 =>
          var word := ReadWord(rom, regs);
          t := Some(PcDisplacement(word));
        case 3 =>
          var word := ReadWord(rom, regs);
          t := Some(PcIndexed(word));
        case 4 =>
          var first := RomWord(rom, regs.pc);
          var second := RomWord(rom, regs.pc + 2);
          t := Some(Immediate(if size == LongSize then [first, second] else [first]));
          regs.pc := ToLong(regs.pc + (if size == LongSize then 4 else 2));
        case _ => t := None;
      }
  }

  /** Bcc and BSR: a zero displacement byte means that a word follows. */
  method DecodeBranch(rom: seq<Byte>, regs: Registers) returns (cond: Digit, size: Size, data: Word)
    requires RomWord(rom, regs.pc) / 0x1000 == 6
    modifies regs`pc
    ensures var pc := old(regs.pc);
            && size != LongSize && regs.pc == PcAfter(pc, size)
            && cond == Bits(RomWord(rom, pc), 8, 4)
            && InstAt(rom, pc) == Some(Inst(pc, regs.pc, BranchTo(cond, BranchTarget(pc, size, data))))
  {
    hide RomWord, Bits, InstAt, ToLong, BranchTarget;
    ghost var pc: int := regs.pc;
    var word := ReadWord(rom, regs);
    ghost var line, b, s, m, x := Compose(word);
    Digits(word, line, b, s, m, x);
    OpcodeMap.Fields(word, line, b, s, m, x);
    cond := Bits(word, 8, 4);
    data := Bits(word, 0, 8);
    size := ByteSize;
    if data == 0 {
      data := ReadWord(rom, regs);
      RomWordWraps(rom, pc + 2);
      size := WordSize;
      AddWrap(pc + 2, 2);
      BranchStands(rom, pc, BccWord(cond, data), line, b, s, m, x);
    } else {
      BranchStands(rom, pc, Bcc(cond, data), line, b, s, m, x);
    }
  }

  lemma BranchStands(rom: seq<Byte>, pc: Long, i: Instruction, line: nat, b: nat, s: nat, m: nat, x: nat)
    requires Composed(RomWord(rom, pc), line, b, s, m, x) && line == 6 && Valid(i)
    requires i == BccWord(b, RomWord(rom, pc + 2)) || i == Bcc(b, 0x40 * s + 8 * m + x)
    requires i.BccWord? ==> 0x40 * s + 8 * m + x == 0
    ensures var size := if i.Bcc? then ByteSize else WordSize;
            InstAt(rom, pc)
            == Some(Inst(pc, PcAfter(pc, size), BranchTo(b, BranchTarget(pc, size, if i.Bcc? then i.byte else i.word))))
  {
    hide RomWord, InstAt, ReadsAt, ToLong, Signed;
    OneWord(rom, pc);
    OneWord(rom, pc + 2);
    assert Opcode(i) == RomWord(rom, pc) by {
      if i.Bcc? {
        ByteParts(i.byte);
      }
    }
    Joined(rom, pc, [Opcode(i)], BehindOpcode(i));
    DecodesAssembled(rom, pc, i);
  }

  // ---------------------------------------------------------------- decode and execute

  /** The sixteen conditions, in the order of their codes. */
  function ConditionOf(n: Digit): Condition {
    match n
    case 0 => Condition.True
    case 1 => Condition.False
    case 2 => Higher
    case 3 => LowerOrSame
    case 4 => CarryClear
    case 5 => CarrySet
    case 6 => NotEqual
    case 7 => Equal
    case 8 => OverflowClear
    case 9 => OverflowSet
    case 10 => Plus
    case 11 => Minus
    case 12 => GreaterOrEqual
    case 13 => LessThan
    case 14 => GreaterThan
    case 15 => LessOrEqual
  }

  /** What the three high bits of a code ask of the flags; with the low bit set the condition
      holds when it is so, and otherwise when it is not. */
  predicate Asked(f: Flags, pair: nat) {
    match pair
    case 0 => false
    case 1 => f.carry || f.zero
    case 2 => f.carry
    case 3 => f.zero
    case 4 => f.overflow
    case 5 => f.negative
    case 6 => f.negative != f.overflow
    case _ => f.zero || f.negative != f.overflow
  }

  lemma ConditionCodes(f: Flags, n: Digit)
    ensures Holds(f, ConditionOf(n)) <==> (Asked(f, n / 2) <==> n % 2 == 1)
  {
  }

  /** What the three high bits of a code ask of two operands after their comparison. */
  predicate AskedOfOperands(size: Size, src: Long, dst: Long, pair: nat) {
    var difference := Signed(dst, size) - Signed(src, size);
    match pair
    case 0 => false
    case 1 => dst <= src
    case 2 => dst < src
    case 3 => dst == src
    case 4 => difference < -size.Half() || difference >= size.Half()
    case 5 => Signed(dst - src, size) < 0
    case 6 => difference < 0
    case _ => difference <= 0
  }

  /** A branch by any code after a comparison of any size is taken exactly when the operands are
      as its code asks. */
  lemma CodesCompare(size: Size, src: Long, dst: Long, extend: bool, n: Digit)
    requires Alu.Fits(src, size) && Alu.Fits(dst, size)
    ensures Holds(FlagsAfter(Arithmetic(true, size, src, dst, false), extend), ConditionOf(n))
            <==> (AskedOfOperands(size, src, dst, n / 2) <==> n % 2 == 1)
  {
    CompareTestsOrder(size, src, dst, extend, ConditionOf(n));
    hide Arithmetic, Signed, Holds;
  }

  /** Bcc and BSR from the opcode on: a branch goes to the recorded target when its condition
      holds and behind the instruction otherwise; a call pushes the address behind it. */
  method StepBranch(rom: seq<Byte>, m: Machine) returns (ok: bool)
    requires m.Valid() && RomWord(rom, m.regs.pc) / 0x1000 == 6
    modifies m.regs`usp, m.regs`ssp, m.regs`pc, m.ram.data
    ensures m.Valid() && InstAt(rom, old(m.regs.pc)).Some?
    ensures var s := old(m.View());
            var inst := InstAt(rom, s.pc).value;
            var taken := Holds(s.sr.flags, ConditionOf(Bits(RomWord(rom, s.pc), 8, 4)));
            match inst.flow
            case Jump(target) => m.View() == s.(pc := target) && taken
            case Branch(target) => m.View() == s.(pc := if taken then target else inst.pcAfter)
            case Call(target) => m.View() == Pushed(s.(pc := inst.pcAfter), LongBytes(inst.pcAfter)).(pc := target)
            case _ => false
  {
    hide RomWord, Bits, InstAt, ToLong, BranchTarget, PcAfter, Pushed;
    ghost var pc: int := m.regs.pc;
    var cond, size, data := DecodeBranch(rom, m.regs);
    if cond == 1 {
      ok := ExecuteBsr(m, size, data, pc);
    } else {
      ok := ExecuteBcc(m.regs, ConditionOf(cond), size, data, pc);
    }
  }

  /** DBcc from the opcode on. */
  method StepDbcc(rom: seq<Byte>, m: Machine) returns (ok: bool)
    requires m.Valid() && Matches(RomWord(rom, m.regs.pc), "0101", "....", "1100", "1...")
    modifies m.regs`pc, m.regs.d
    ensures m.Valid() && InstAt(rom, old(m.regs.pc)).Some?
    ensures var pc := old(m.regs.pc);
            var inst := InstAt(rom, pc).value;
            var n := Bits(RomWord(rom, pc), 0, 3);
            var cond := ConditionOf(Bits(RomWord(rom, pc), 8, 4));
            && n < 8 && inst.flow.Branch?
            && var c := Interpreted(m.regs.sr.flags, cond, old(m.regs.d[n]));
               m.regs.d[..] == old(m.regs.d[..])[n := c.register]
               && m.regs.pc == if c.taken then inst.flow.target else inst.pcAfter
  {
    hide RomWord, Bits, InstAt, ToLong, BranchTarget, Matches, Interpreted;
    ghost var pc: int := m.regs.pc;
    var word := ReadWord(rom, m.regs);
    ghost var line, b, s, mode, x := Compose(word);
    MiddlePatterns(word, line, b, s, mode, x);
    OpcodeMap.Fields(word, line, b, s, mode, x);
    var data := ReadWord(rom, m.regs);
    RomWordWraps(rom, pc + 2);
    AddWrap(pc + 2, 2);
    DbccStands(rom, pc, line, b, s, mode, x);
    ok := ExecuteDbcc(m.regs, Bits(word, 0, 3), ConditionOf(Bits(word, 8, 4)), data, pc);
  }

  lemma DbccStands(rom: seq<Byte>, pc: Long, line: nat, b: nat, s: nat, m: nat, x: nat)
    requires Composed(RomWord(rom, pc), line, b, s, m, x) && line == 5 && s == 3 && m == 1
    ensures InstAt(rom, pc)
            == Some(Inst(pc, PcAfter(pc, WordSize), Flow.Branch(BranchTarget(pc, WordSize, RomWord(rom, pc + 2)))))
  {
    hide RomWord, InstAt, ReadsAt, ToLong, Signed;
    var i := Dbcc(b, x, RomWord(rom, pc + 2));
    OneWord(rom, pc);
    OneWord(rom, pc + 2);
    Joined(rom, pc, [Opcode(i)], BehindOpcode(i));
    DecodesAssembled(rom, pc, i);
  }

  /** The address an operand stands for once it is decoded; what registers supply is an
      input. */
  function EffectiveAddress(t: Target, pc: Long, registers: Long): Long {
    match t
    case PcDisplacement(d) => ToLong(pc - 2 + Signed(d, WordSize))
    case AbsoluteShort(a) => ToLong(Signed(a, WordSize))
    case AbsoluteLong(high, low) => ToLong(high * 0x1_0000 + low)
    case _ => registers
  }

  lemma EffectiveIsStatic(t: Target, pc: Long, registers: Long)
    requires IsOf(t, LongSize)
    ensures EffectiveAddress(t, ToLong(pc + 2 * (1 + |Behind(t)|)), registers)
            == if StaticAddress(t, pc).Some? then StaticAddress(t, pc).value else registers
    ensures t.Address? || t.Indexed? ==> StaticAddress(t, pc).None?
  {
    match t {
      case PcDisplacement(d) => AddWrap(pc + 4, -2 + Signed(d, WordSize));
      case AbsoluteLong(high, low) => SmallLong(high * 0x1_0000 + low);
      case _ =>
    }
    hide Signed, ToLong;
  }

  /** JMP and JSR from the opcode on: a target the analyser has recorded is where they go. */
  method StepJump(rom: seq<Byte>, m: Machine, registers: Long) returns (ok: bool)
    requires m.Valid() && Matches(RomWord(rom, m.regs.pc), "0100", "1110", "1...", "....")
    modifies m.regs`usp, m.regs`ssp, m.regs`pc, m.ram.data
    ensures m.Valid()
    ensures var s := old(m.View());
            InstAt(rom, s.pc).Some? ==>
              var inst := InstAt(rom, s.pc).value;
              var after := s.(pc := inst.pcAfter);
              match inst.flow
              case Jump(target) => m.View() == s.(pc := target)
              case JumpIndirect => m.View() == s.(pc := registers)
              case JumpUnknown => m.View() == s.(pc := registers) || m.View() == s.(pc := 0)
              case Call(target) => m.View() == Pushed(after, LongBytes(inst.pcAfter)).(pc := target)
              case CallIndirect => m.View() == Pushed(after, LongBytes(inst.pcAfter)).(pc := registers)
              case CallUnknown =>
                || m.View() == Pushed(after, LongBytes(inst.pcAfter)).(pc := registers)
                || m.View() == Pushed(after, LongBytes(inst.pcAfter)).(pc := 0)
              case _ => false
  {
    hide RomWord, Bits, InstAt, ToLong, Matches, Pushed, EffectiveAddress, StaticAddress, Behind, IsOf, ReadsAt;
    ghost var pc: int := m.regs.pc;
    var word := ReadWord(rom, m.regs);
    ghost var line, b, s, mode, x := Compose(word);
    FourTailPatterns(word, line, b, s, mode, x);
    OpcodeMap.Fields(word, line, b, s, mode, x);
    var t := ParseTarget(rom, m.regs, LongSize, Bits(word, 3, 3), Bits(word, 0, 3));
    if t.None? {
      NoTarget(rom, pc, line, b, s, mode, x);
      return false;
    }
    JumpStands(rom, pc, t.value, line, b, s);
    EffectiveIsStatic(t.value, pc, registers);
    AddWrap(pc + 2, 2 * |Behind(t.value)|);
    var target := EffectiveAddress(t.value, m.regs.pc, registers);
    if Bits(word, 6, 1) == 0 {
      ok := m.ExecuteCall(target);
    } else {
      m.regs.pc := target;
      ok := target % 2 == 0;
    }
  }

  lemma NoTarget(rom: seq<Byte>, pc: Long, line: nat, b: nat, s: nat, m: nat, x: nat)
    requires Composed(RomWord(rom, pc), line, b, s, m, x) && line == 4 && b == 14 && s >= 2
    requires TargetWords(LongSize, m, x).None?
    ensures InstAt(rom, pc).None?
  {
    hide RomWord, ExtensionWords, TargetWords;
    PatternsAreTheMap(RomWord(rom, pc), line, b, s, m, x);
  }

  lemma JumpStands(rom: seq<Byte>, pc: Long, t: Target, line: nat, b: nat, s: nat)
    requires Composed(RomWord(rom, pc), line, b, s, Mode(t), Index(t)) && line == 4 && b == 14 && s >= 2
    requires IsOf(t, LongSize) && ReadsAt(rom, ToLong(pc + 2), Behind(t))
    ensures InstAt(rom, pc)
            == Some(Inst(pc, ToLong(ToLong(pc + 2) + 2 * |Behind(t)|), JumpTo(t, pc, s == 2)))
  {
    hide RomWord, InstAt, ReadsAt, ToLong, JumpTo, Behind, IsOf, Mode, Index;
    var i := if s == 2 then Jsr(t) else Jmp(t);
    OneWord(rom, pc);
    ReadsAtWraps(rom, pc + 2, Behind(t));
    Joined(rom, pc, [Opcode(i)], BehindOpcode(i));
    DecodesAssembled(rom, pc, i);
    AddWrap(pc + 2, 2 * |Behind(t)|);
  }

  lemma ReadsAtWraps(rom: seq<Byte>, at: nat, words: seq<Word>)
    requires ReadsAt(rom, ToLong(at), words)
    ensures ReadsAt(rom, at, words)
  {
    hide RomWord;
    forall k | 0 <= k < |words|
      ensures RomWord(rom, at + 2 * k) == words[k]
    {
      WordRead(rom, ToLong(at), words, k);
      RomWordWraps(rom, at + 2 * k);
      RomWordWraps(rom, ToLong(at) + 2 * k);
      AddWrap(at, 2 * k);
    }
  }
}
