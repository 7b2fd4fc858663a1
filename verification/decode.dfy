/** Instruction decoding as far as control flow and length go
    (src/m68k/instruction/decode.cpp): which opcodes exist, how many extension words each
    reads, and where control can go afterwards. */
module Decode {
  import opened Words
  import opened Branch

  /** A bit pattern in the four groups the source writes it in: zeros and ones are fixed, dots
      are free. */
  predicate Matches(w: Word, first: string, second: string, third: string, fourth: string) {
    && Fits(w / 0x1000, first) && Fits(w / 0x100 % 0x10, second)
    && Fits(w / 0x10 % 0x10, third) && Fits(w % 0x10, fourth)
  }

  predicate Fits(digit: int, group: string) {
    && |group| == 4
    && FitsBit(digit / 8 % 2, group[0]) && FitsBit(digit / 4 % 2, group[1])
    && FitsBit(digit / 2 % 2, group[2]) && FitsBit(digit % 2, group[3])
  }

  predicate FitsBit(bit: int, c: char) {
    (c == '0' ==> bit == 0) && (c == '1' ==> bit == 1)
  }

  function Bits(w: nat, begin: nat, len: nat): nat {
    w / Pow2(begin) % Pow2(len)
  }

  /** Size field at bit 6: None for the value the source treats as unreachable. */
  function SizeField(w: Word): Option<Size> {
    match Bits(w, 6, 2)
    case 0 => Some(ByteSize)
    case 1 => Some(WordSize)
    case 2 => Some(LongSize)
    case _ => None
  }

  /** Extension words read for an addressing mode; None for an unknown one. */
  function TargetWords(size: Size, mode: nat, xn: nat): (n: Option<nat>)
    ensures n.Some? ==> n.value <= 2
  {
    if mode < 5 then Some(0)
    else if mode < 7 then Some(1)
    else if xn == 0 || xn == 2 || xn == 3 then Some(1)
    else if xn == 1 then Some(2)
    else if xn == 4 then Some(if size == LongSize then 2 else 1)
    else None
  }

  /** The usual operand: mode at bit 3, register at bit 0. */
  function Operand(w: Word, size: Size): (n: Option<nat>)
    ensures n.Some? ==> n.value <= 2
  {
    TargetWords(size, Bits(w, 3, 3), Bits(w, 0, 3))
  }

  function SizedOperand(w: Word): (n: Option<nat>)
    ensures n.Some? ==> n.value <= 2
  {
    match SizeField(w)
    case Some(size) => Operand(w, size)
    case None => None
  }

  /** An operand after k words that were read before it. */
  function Added(k: nat, n: Option<nat>): (r: Option<nat>)
    ensures r.Some? ==> n.Some? && r.value == k + n.value
  {
    match n
    case Some(m) => Some(k + m)
    case None => None
  }

  /** MOVE and MOVEA read the source operand's words, then the destination's. */
  function MoveWords(w: Word, size: Size): (n: Option<nat>)
    ensures n.Some? ==> n.value <= 4
  {
    match Operand(w, size)
    case Some(m) => Added(m, TargetWords(size, Bits(w, 6, 3), Bits(w, 9, 3)))
    case None => None
  }

  /** Extension words of the opcodes the source parses in its first chain of patterns;
      Some(None) when the opcode matches but its operand does not exist, None when no pattern
      of the chain matches. */
  function FirstChain(w: Word): (r: Option<Option<nat>>)
    ensures r.Some? && r.value.Some? ==> r.value.value <= 4
  {
    if Matches(w, "0100", "1110", "0111", "0000") || Matches(w, "0100", "1110", "0111", "0001") then Some(Some(0))
    else if Matches(w, "0101", "....", "1100", "1...") then Some(Some(1))
    else if Matches(w, "0101", "....", "11..", "....") then Some(Operand(w, ByteSize))
    else if Matches(w, "0101", "....", "....", "....") then Some(SizedOperand(w))
    else if Matches(w, "1.00", "...1", "0000", "....") then Some(Some(0))
    else if Matches(w, "1.01", "...1", "..00", "....") && Bits(w, 6, 2) != 3 then Some(Some(0))
    else if Matches(w, "0110", "....", "....", "....") then Some(Some(if Bits(w, 0, 8) == 0 then 1 else 0))
    else if Matches(w, "0100", "1110", "1...", "....") then Some(Operand(w, LongSize))
    else if Matches(w, "0100", "...1", "11..", "....") then Some(Operand(w, LongSize))
    else if Matches(w, "1011", "...1", "..00", "1...") && Bits(w, 6, 2) != 3 then Some(Some(0))
    else if Matches(w, "0100", "1000", "0100", "0...") then Some(Some(0))
    else if Matches(w, "0100", "1000", "01..", "....") then Some(Operand(w, LongSize))
    else if Matches(w, "0100", "1010", "11..", "....") then Some(Operand(w, ByteSize))
    else if Matches(w, "1100", "...1", "..00", "....") && Bits(w, 6, 2) != 3 then Some(Some(0))
    else if Matches(w, "0100", "1000", "1.00", "0...") then Some(Some(0))
    else if Matches(w, "0100", "1110", "0101", "0...") then Some(Some(1))
    else if Matches(w, "0100", "1110", "0101", "1...") then Some(Some(0))
    else if Matches(w, "0100", "1110", "0100", "....") then Some(Some(0))
    else if Matches(w, "0100", "1110", "0111", "0110") || Matches(w, "0100", "1110", "0111", "0011")
            || Matches(w, "0100", "1110", "0111", "0101") || Matches(w, "0100", "1110", "0111", "0111") then
      Some(Some(0))
    else if Matches(w, "0100", "1010", "....", "....") then Some(SizedOperand(w))
    else if Matches(w, "0100", "...1", "10..", "....") then Some(Operand(w, WordSize))
    else if Matches(w, "0100", "1000", "00..", "....") then Some(Operand(w, ByteSize))
    else if Matches(w, "1100", "....", "11..", "....") then Some(Operand(w, WordSize))
    else if Matches(w, "1000", "....", "11..", "....") then Some(Operand(w, WordSize))
    else None
  }

  /** OR, AND and EOR to the status register. */
  predicate IsStatusIndex(i: nat) {
    i == 0 || i == 1 || i == 5
  }

  /** OR, AND, SUB, ADD, EOR and CMP with an immediate operand. */
  predicate IsImmediateIndex(i: nat) {
    i == 0 || i == 1 || i == 2 || i == 3 || i == 5 || i == 6
  }

  /** OR, SUB, EOR or CMP, AND, ADD. */
  predicate IsBinaryIndex(i: nat) {
    i == 0 || i == 1 || i == 3 || i == 4 || i == 5
  }

  /** The groups tried after it, in their order. */
  function SecondChain(w: Word): (n: Option<nat>)
    ensures n.Some? ==> n.value <= 4
  {
    if Matches(w, "0000", "...0", "0.11", "1100") && IsStatusIndex(Bits(w, 9, 3)) then Some(1)
    else if Matches(w, "0000", "...1", "....", "....") && Bits(w, 3, 3) != 1 then Operand(w, ByteSize)
    else if Matches(w, "0000", "1000", "....", "....") then Added(1, Operand(w, ByteSize))
    else if (Matches(w, "0100", "0000", "....", "....") || Matches(w, "0100", "0010", "....", "....")
             || Matches(w, "0100", "0100", "....", "....") || Matches(w, "0100", "0110", "....", "...."))
            && Bits(w, 6, 2) != 3 then
      SizedOperand(w)
    else if Matches(w, "1110", "0...", "11..", "....") then Operand(w, WordSize)
    else if Matches(w, "1110", "....", "....", "....") && Bits(w, 6, 2) != 3 then Some(0)
    else if Matches(w, "1..1", "....", "11..", "....") && Bits(w, 13, 2) != 3 then
      Operand(w, if Bits(w, 8, 1) == 1 then LongSize else WordSize)
    else if Matches(w, "0000", "...0", "....", "....") && IsImmediateIndex(Bits(w, 9, 3)) then
      match SizeField(w)
      case Some(size) => Added(if size == LongSize then 2 else 1, Operand(w, size))
      case None => None
    else if Matches(w, "1...", "....", "....", "....") && IsBinaryIndex(Bits(w, 12, 3)) then SizedOperand(w)
    else MoveGroup(w)
  }

  function MoveGroup(w: Word): (n: Option<nat>)
    ensures n.Some? ==> n.value <= 4
  {
    if Matches(w, "00..", "....", "....", "....") && Bits(w, 12, 2) != 0 then
      MoveWords(w, if Bits(w, 12, 2) == 1 then ByteSize else if Bits(w, 12, 2) == 3 then WordSize else LongSize)
    else if Matches(w, "0000", "...1", "..00", "1...") then Some(1)
    else if Matches(w, "0100", "1.00", "1...", "....") then
      Added(1, Operand(w, if Bits(w, 6, 1) == 1 then LongSize else WordSize))
    else if Matches(w, "0111", "...0", "....", "....") then Some(0)
    else if Matches(w, "0100", "01.0", "11..", "....") then Operand(w, WordSize)
    else if Matches(w, "0100", "0000", "11..", "....") then Operand(w, WordSize)
    else if Matches(w, "0100", "1110", "0110", "0...") || Matches(w, "0100", "1110", "0110", "1...") then Some(0)
    else None
  }

  /** Extension words of an opcode; None when it cannot be decoded. */
  function ExtensionWords(w: Word): (n: Option<nat>)
    ensures n.Some? ==> n.value <= 4
  {
    match FirstChain(w)
    case Some(n) => n
    case None => SecondChain(w)
  }

  // ---------------------------------------------------------------- control flow

  /** Where control goes after an instruction. */
  datatype Flow =
    | Plain
    | Return
    | Branch(target: Long)
    | Jump(target: Long)
    | JumpIndirect
    | JumpUnknown
    | Call(target: Long)
    | CallIndirect
    | CallUnknown

  datatype Inst = Inst(pcBefore: Long, pcAfter: Long, flow: Flow)

  /** A word of the ROM as the decoder reads it: 24-bit addresses, zeros outside. */
  function RomByte(rom: seq<Byte>, addr: nat): Byte {
    var a := addr % 0x100_0000;
    if a < |rom| then rom[a] else 0
  }

  function RomWord(rom: seq<Byte>, addr: nat): Word {
    var high: int := RomByte(rom, addr);
    high * 0x100 + RomByte(rom, addr + 1)
  }

  /** JMP and JSR: address register and indexed operands are indirect; absolute and PC-relative
      ones have a target; for any other operand the target is reported as zero, which stands
      for unknown. */
  function JumpFlow(rom: seq<Byte>, pc: Long, w: Word, pcAfter: Long, isCall: bool): Flow {
    var mode, xn := Bits(w, 3, 3), Bits(w, 0, 3);
    if mode == 2 || mode == 6 then (if isCall then CallIndirect else JumpIndirect)
    else
      var target := StaticTarget(mode, xn, RomWord(rom, pc + 2), RomWord(rom, pc + 4), pcAfter);
      if target == 0 then (if isCall then CallUnknown else JumpUnknown)
      else if isCall then Call(target)
      else Jump(target)
  }

  function StaticTarget(mode: nat, xn: nat, ext0: Word, ext1: Word, pcAfter: Long): Long {
    if mode == 7 && xn == 1 then ToLong(ext0 * 0x1_0000 + ext1)
    else if mode == 7 && xn == 0 then ToLong(Signed(ext0, WordSize))
    else if mode == 7 && xn == 2 then ToLong(pcAfter - 2 + Signed(ext0, WordSize))
    else 0
  }

  function FlowOf(rom: seq<Byte>, pc: Long, w: Word, pcAfter: Long): Flow {
    if Matches(w, "0101", "....", "1100", "1...") then Branch(BranchTarget(pc, WordSize, RomWord(rom, pc + 2)))
    else if Matches(w, "0110", "....", "....", "....") then
      var byte := Bits(w, 0, 8);
      var target := if byte == 0 then BranchTarget(pc, WordSize, RomWord(rom, pc + 2))
                    else BranchTarget(pc, ByteSize, byte % 0x100);
      if Bits(w, 8, 4) == 0 then Jump(target)
      else if Bits(w, 8, 4) == 1 then Call(target)
      else Branch(target)
    else if Matches(w, "0100", "1110", "1...", "....") then JumpFlow(rom, pc, w, pcAfter, Bits(w, 6, 1) == 0)
    else if Matches(w, "0100", "1110", "0111", "0011") || Matches(w, "0100", "1110", "0111", "0101")
            || Matches(w, "0100", "1110", "0111", "0111") then Return
    else Plain
  }

  /** The instruction at an address, or None when there is none. */
  function InstAt(rom: seq<Byte>, pc: Long): Option<Inst> {
    var w := RomWord(rom, pc);
    match ExtensionWords(w)
    case None => None
    case Some(n) =>
      var k := 1 + n;
      var pcAfter := ToLong(pc + 2 * k);
      Some(Inst(pc, pcAfter, FlowOf(rom, pc, w, pcAfter)))
  }

  /** A decoded instruction starts at its address and is one to five words long. */
  lemma InstLength(rom: seq<Byte>, pc: Long)
    requires InstAt(rom, pc).Some?
    ensures var inst := InstAt(rom, pc).value;
            inst.pcBefore == pc && exists k :: 1 <= k <= 5 && inst.pcAfter == ToLong(pc + 2 * k)
  {
    hide ExtensionWords, FlowOf, RomWord;
    var n := ExtensionWords(RomWord(rom, pc)).value;
    assert InstAt(rom, pc).value.pcAfter == ToLong(pc + 2 * (1 + n));
  }
}
