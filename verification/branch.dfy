/** Branch displacements and counted loops, in the interpreter, the analyzer and the emitted
    code. */
module Branch {
  import opened Words
  import opened CpuRegisters
  import opened Conditions
  import opened Frames
  import opened Ram

  /** A byte or word displacement as a signed number. */
  function Displacement(size: Size, data: Word): int {
    if size == ByteSize then Signed(data, ByteSize) else Signed(data, WordSize)
  }

  /** Analyzer and lifter: address of the instruction, plus two, plus the displacement. */
  function BranchTarget(pcBefore: Long, size: Size, data: Word): Long {
    ToLong(pcBefore + 2 + Displacement(size, data))
  }

  /** The program counter once the instruction is decoded: a word displacement is a second
      word. */
  function PcAfter(pcBefore: Long, size: Size): Long {
    ToLong(pcBefore + (if size == ByteSize then 2 else 4))
  }

  // ---------------------------------------------------------------- the interpreter

  lemma AddWrap(a: int, b: int)
    ensures ToLong(ToLong(a) + b) == ToLong(a + b)
  {
  }

  /** Move the program counter by the displacement; false for an odd target. */
  method DisplacePc(regs: Registers, size: Size, data: Word, ignoreParsedWordAlways: bool) returns (ok: bool)
    modifies regs`pc
    ensures regs.pc == ToLong(old(regs.pc) + Displacement(size, data)
              - (if size != ByteSize && (Displacement(size, data) < 0 || ignoreParsedWordAlways) then 2 else 0))
    ensures ok == (regs.pc % 2 == 0)
  {
    if size == ByteSize {
      var offset := Signed(data, ByteSize);
      regs.pc := ToLong(regs.pc + offset);
    } else {
      var offset := Signed(data, WordSize);
      AddWrap(regs.pc + offset, -2);
      regs.pc := ToLong(regs.pc + offset);
      if offset < 0 || ignoreParsedWordAlways {
        regs.pc := ToLong(regs.pc - 2);
      }
    }
    ok := regs.pc % 2 == 0;
  }

  /** Bcc at the given address: it goes to the analyzer's target exactly when the condition
      holds. */
  method ExecuteBcc(regs: Registers, cond: Condition, size: Size, data: Word, ghost pcBefore: Long) returns (ok: bool)
    requires size != LongSize && regs.pc == PcAfter(pcBefore, size)
    modifies regs`pc
    ensures regs.pc == if Holds(regs.sr.flags, cond) then BranchTarget(pcBefore, size, data)
                       else PcAfter(pcBefore, size)
    ensures ok == (!Holds(regs.sr.flags, cond) || regs.pc % 2 == 0)
  {
    hide ToLong, Displacement, Holds;
    ok := true;
    if Holds(regs.sr.flags, cond) {
      var words := if size == ByteSize then 2 else 4;
      AddWrap(pcBefore + words, Displacement(size, data) + 2 - words);
      ok := DisplacePc(regs, size, data, true);
    }
  }

  /** BSR at the given address: it pushes the address of the next instruction and goes to the
      analyzer's target; the result of the push is ignored. */
  method ExecuteBsr(m: Machine, size: Size, data: Word, ghost pcBefore: Long) returns (ok: bool)
    requires m.Valid() && size != LongSize && m.regs.pc == PcAfter(pcBefore, size)
    modifies m.regs`usp, m.regs`ssp, m.regs`pc, m.ram.data
    ensures m.Valid()
    ensures m.View() == Pushed(old(m.View()), LongBytes(PcAfter(pcBefore, size)))
                        .(pc := BranchTarget(pcBefore, size, data))
    ensures ok == (m.regs.pc % 2 == 0)
    ensures Call(old(m.View()), BranchTarget(pcBefore, size, data)).Some? ==>
              ok && Call(old(m.View()), BranchTarget(pcBefore, size, data)) == Some(m.View())
  {
    hide ToLong, Displacement, Written, LongBytes;
    var _ := m.PushStack(LongBytes(m.regs.pc));
    ghost var words := if size == ByteSize then 2 else 4;
    AddWrap(pcBefore + words, Displacement(size, data) + 2 - words);
    ok := DisplacePc(m.regs, size, data, true);
  }

  /** What a DBcc does to its counter register, and whether it branches. */
  datatype Count = Count(register: Long, taken: bool)

  /** The low word counts down; the branch is taken until it passes zero. */
  function Counted(register: Long): Count {
    var low := (register % 0x1_0000 - 1) % 0x1_0000;
    Count(register - register % 0x1_0000 + low, low != 0xFFFF)
  }

  function Interpreted(f: Flags, cond: Condition, register: Long): Count {
    if Holds(f, cond) then Count(register, false) else Counted(register)
  }

  /** DBcc at the given address. */
  method ExecuteDbcc(regs: Registers, n: nat, cond: Condition, data: Word, ghost pcBefore: Long) returns (ok: bool)
    requires regs.Valid() && n < 8 && regs.pc == PcAfter(pcBefore, WordSize)
    modifies regs`pc, regs.d
    ensures var c := Interpreted(regs.sr.flags, cond, old(regs.d[n]));
            && regs.d[..] == old(regs.d[..])[n := c.register]
            && regs.pc == (if c.taken then BranchTarget(pcBefore, WordSize, data) else PcAfter(pcBefore, WordSize))
            && ok == (!c.taken || regs.pc % 2 == 0)
  {
    hide ToLong, Signed, Low, Holds, Counted;
    ok := true;
    if !Holds(regs.sr.flags, cond) {
      var counter := Signed(regs.d[n], WordSize);
      counter := Signed(counter - 1, WordSize);
      CounterSteps(regs.d[n]);
      regs.d[n] := regs.d[n] / 0x1_0000 * 0x1_0000 + Low(counter, WordSize);
      if counter != -1 {
        var offset := Signed(data, WordSize);
        AddWrap(pcBefore + 4, -2);
        AddWrap(pcBefore + 2, offset);
        AddWrap(pcBefore + 4, offset - 2);
        if offset >= 0 {
          regs.pc := ToLong(regs.pc - 2);
        }
        ok := DisplacePc(regs, WordSize, data, false);
      }
    }
  }

  lemma CounterSteps(register: Long)
    ensures var counter := Signed(Signed(register, WordSize) - 1, WordSize);
            && register / 0x1_0000 * 0x1_0000 + Low(counter, WordSize) == Counted(register).register
            && (counter != -1 <==> Counted(register).taken)
  {
    var low := register % 0x1_0000;
    assert Low(Signed(register, WordSize) - 1, WordSize) == (low - 1) % 0x1_0000;
  }

  // ---------------------------------------------------------------- the emitted code

  /** The emitted decrement works on unsigned 16-bit values; the guard is left out for the
      condition True. */
  function Emitted(f: Flags, cond: Condition, register: Long): Count {
    if cond != True && Holds(f, cond) then Count(register, false)
    else
      var cnt := Low(register % 0x1_0000 - 1, WordSize);
      Count(register / 0x1_0000 * 0x1_0000 + cnt, Signed(cnt, WordSize) != -1)
  }

  /** The emitted code counts and branches like the interpreter if and only if the condition
      is not True: DBT never loops, its translation does. */
  lemma EmittedAgreesExactly(f: Flags, cond: Condition, register: Long)
    ensures Emitted(f, cond, register) == Interpreted(f, cond, register) <==> cond != True
  {
    assert register == register / 0x1_0000 * 0x1_0000 + register % 0x1_0000;
    assert Emitted(f, False, register) == Counted(register);
  }

  /** How often a loop closed by DBF branches back, and what is left in the register. */
  function BackBranches(register: Long): (nat, Long)
    decreases register % 0x1_0000
  {
    var c := Counted(register);
    if c.taken then
      CountGoesDown(register);
      var (n, final) := BackBranches(c.register);
      (n + 1, final)
    else (0, c.register)
  }

  lemma CountGoesDown(register: Long)
    ensures var c := Counted(register);
            && (c.taken <==> register % 0x1_0000 != 0)
            && (c.taken ==> c.register == register - 1 && c.register % 0x1_0000 == register % 0x1_0000 - 1)
            && (!c.taken ==> c.register == register + 0xFFFF)
  {
  }

  /** A DBF loop entered with low word w branches back exactly w times and leaves 0xFFFF in
      the low word, the high word unchanged. */
  lemma {:induction false} DbfLoop(register: Long)
    ensures BackBranches(register)
            == (register % 0x1_0000, register - register % 0x1_0000 + 0xFFFF)
    decreases register % 0x1_0000
  {
    CountGoesDown(register);
    if Counted(register).taken {
      DbfLoop(Counted(register).register);
    }
  }

  /** For every flag setting DBF takes the counting path, in the interpreter and in the
      emitted code alike, so both loops run equally often. */
  lemma DbfAlike(f: Flags, register: Long)
    ensures Interpreted(f, False, register) == Emitted(f, False, register) == Counted(register)
  {
    EmittedAgreesExactly(f, False, register);
  }
}
