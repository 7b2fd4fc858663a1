/** The processor's register file (src/m68k/registers/registers.h). */
module CpuRegisters {
  import opened Words

  /** The condition codes, in the order of their bits. */
  datatype Flags = Flags(carry: bool, overflow: bool, zero: bool, negative: bool, extend: bool) {
    function Above(rest: nat): nat {
      B2I(carry) + 2 * (B2I(overflow) + 2 * (B2I(zero) + 2 * (B2I(negative) + 2 * (B2I(extend) + 2 * rest))))
    }
  }

  function FlagsOf(w: nat): Flags {
    var w1 := w / 2;
    var w2 := w1 / 2;
    var w3 := w2 / 2;
    var w4 := w3 / 2;
    Flags(w % 2 == 1, w1 % 2 == 1, w2 % 2 == 1, w3 % 2 == 1, w4 % 2 == 1)
  }

  /** The status register bit fields, low byte first.  The bits the source leaves unnamed
      (5 to 7, and 11) are kept, because the register is also read and written as a word. */
  datatype StatusRegister = StatusRegister(
    flags: Flags, unnamedLow: Bits3,
    interruptMask: Bits3, unnamedHigh: bool, master: bool, supervisor: bool, trace: Bits2)
  {
    /** The register as a word, bit 0 first. */
    function ToWord(): (w: Word) {
      flags.Above(unnamedLow + 8 * HighByte())
    }

    function HighByte(): (b: Byte) {
      interruptMask + 8 * (B2I(unnamedHigh) + 2 * (B2I(master) + 2 * (B2I(supervisor) + 2 * trace)))
    }
  }

  type Bits2 = x: int | 0 <= x < 4
  type Bits3 = x: int | 0 <= x < 8

  function FromWord(w: Word): StatusRegister {
    var w5 := w / 0x20;
    var h := w5 / 8;
    var h1 := h / 8;
    var h2 := h1 / 2;
    var h3 := h2 / 2;
    StatusRegister(FlagsOf(w), w5 % 8, h % 8, h1 % 2 == 1, h2 % 2 == 1, h3 % 2 == 1, h3 / 2)
  }

  /** The mask 0b1010'1111'1111'1111 the source applies to every word it loads into the
      status register: bits 12 (master switch) and 14 (low trace bit) are cleared. */
  function MaskSr(w: Word): (r: Word) {
    w - 0x1000 * (w / 0x1000 % 2) - 0x4000 * (w / 0x4000 % 2)
  }

  function MaskedFields(sr: StatusRegister): StatusRegister {
    sr.(master := false, trace := 2 * (sr.trace / 2))
  }

  lemma BitOnTop(b: bool, rest: nat, w: nat)
    requires w == B2I(b) + 2 * rest
    ensures w / 2 == rest && (w % 2 == 1 <==> b)
  {
  }

  lemma FlagsRoundTrip(f: Flags, rest: nat)
    ensures FlagsOf(f.Above(rest)) == f
    ensures f.Above(rest) / 0x20 == rest
  {
    var w4 := B2I(f.extend) + 2 * rest;
    var w3 := B2I(f.negative) + 2 * w4;
    var w2 := B2I(f.zero) + 2 * w3;
    var w1 := B2I(f.overflow) + 2 * w2;
    BitOnTop(f.carry, w1, f.Above(rest));
    BitOnTop(f.overflow, w2, w1);
    BitOnTop(f.zero, w3, w2);
    BitOnTop(f.negative, w4, w3);
    BitOnTop(f.extend, rest, w4);
  }

  lemma WordRoundTrip(sr: StatusRegister)
    ensures FromWord(sr.ToWord()) == sr
  {
    var rest := sr.unnamedLow + 8 * sr.HighByte();
    var w := sr.ToWord();
    assert w == sr.flags.Above(rest);
    FlagsRoundTrip(sr.flags, rest);
    DivUnique(rest, 8, sr.HighByte(), sr.unnamedLow);
    Reassembled(sr, w, rest);
    hide *;
  }

  lemma Reassembled(sr: StatusRegister, w: Word, rest: nat)
    requires FlagsOf(w) == sr.flags && w / 0x20 == rest
    requires rest % 8 == sr.unnamedLow && rest / 8 == sr.HighByte()
    ensures FromWord(w) == sr
  {
    hide FlagsOf, StatusRegister.HighByte;
    HighRoundTrip(sr);
  }

  lemma HighRoundTrip(sr: StatusRegister)
    ensures var h := sr.HighByte();
            var h1 := h / 8;
            var h2 := h1 / 2;
            var h3 := h2 / 2;
            && h % 8 == sr.interruptMask && (h1 % 2 == 1 <==> sr.unnamedHigh)
            && (h2 % 2 == 1 <==> sr.master) && (h3 % 2 == 1 <==> sr.supervisor) && h3 / 2 == sr.trace
  {
    var h3 := B2I(sr.supervisor) + 2 * sr.trace;
    var h2 := B2I(sr.master) + 2 * h3;
    var h1 := B2I(sr.unnamedHigh) + 2 * h2;
    DivUnique(sr.HighByte(), 8, h1, sr.interruptMask);
    BitOnTop(sr.unnamedHigh, h2, h1);
    BitOnTop(sr.master, h3, h2);
    BitOnTop(sr.supervisor, sr.trace, h3);
    hide StatusRegister.HighByte, B2I;
  }

  /** The mask drops the master switch and the low trace bit and keeps everything else. */
  lemma MaskSrFields(sr: StatusRegister)
    ensures MaskSr(sr.ToWord()) == MaskedFields(sr).ToWord()
    ensures FromWord(MaskSr(sr.ToWord())) == MaskedFields(sr)
  {
    var rest := B2I(sr.supervisor) + 2 * sr.trace;
    var top := B2I(sr.master) + 2 * rest;
    SplitWord(sr, top);
    BitOnTop(sr.master, rest, top);
    BitOnTop(sr.supervisor, sr.trace, rest);
    SplitWord(MaskedFields(sr), 2 * (B2I(sr.supervisor) + 4 * (sr.trace / 2)));
    WordRoundTrip(MaskedFields(sr));
  }

  function BelowMaster(sr: StatusRegister): (r: int)
    ensures 0 <= r < 0x1000
  {
    B2I(sr.flags.carry) + 2 * B2I(sr.flags.overflow) + 4 * B2I(sr.flags.zero) + 8 * B2I(sr.flags.negative)
    + 0x10 * B2I(sr.flags.extend)
    + 0x20 * sr.unnamedLow + 0x100 * sr.interruptMask + 0x800 * B2I(sr.unnamedHigh)
  }

  lemma SplitWord(sr: StatusRegister, top: nat)
    requires top == B2I(sr.master) + 2 * (B2I(sr.supervisor) + 2 * sr.trace)
    ensures sr.ToWord() == BelowMaster(sr) + 0x1000 * top
    ensures sr.ToWord() / 0x1000 == top
    ensures sr.ToWord() / 0x4000 == sr.trace
  {
    var low := BelowMaster(sr);
    assert sr.ToWord() == low + 0x1000 * top;
    DivUnique(sr.ToWord(), 0x1000, top, low);
    DivUnique(sr.ToWord(), 0x4000, sr.trace, low + 0x1000 * B2I(sr.master) + 0x2000 * B2I(sr.supervisor));
  }

  class Registers {
    var d: array<Long>
    var a: array<Long>
    var usp: Long
    var ssp: Long
    var pc: Long
    var sr: StatusRegister

    ghost predicate Valid()
      reads this
    {
      d.Length == 8 && a.Length == 7 && d != a
    }

    constructor (sr: StatusRegister, pc: Long, usp: Long, ssp: Long)
      ensures Valid() && fresh(d) && fresh(a)
      ensures this.sr == sr && this.pc == pc && this.usp == usp && this.ssp == ssp
    {
      d := new Long[8](_ => 0);
      a := new Long[7](_ => 0);
      this.sr, this.pc, this.usp, this.ssp := sr, pc, usp, ssp;
      new;
      assert d.Length != a.Length;
    }

    /** The stack pointer is the one the supervisor flag selects. */
    function StackPtr(): Long
      reads this
    {
      if sr.supervisor then ssp else usp
    }

    method SetStackPtr(v: Long)
      modifies this`ssp, this`usp
      ensures StackPtr() == v
      ensures if sr.supervisor then usp == old(usp) else ssp == old(ssp)
    {
      if sr.supervisor {
        ssp := v;
      } else {
        usp := v;
      }
    }
  }
}
