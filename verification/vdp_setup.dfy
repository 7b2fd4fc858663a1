/** Setting up the video display processor: from the settings a program wants to the control
    words it sends, and back (src/sega/memory/vdp_device.cpp:170-290, 507-764). */
module VdpSetup {
  import opened Words
  import opened Bus
  import opened VdpRegisters
  import opened Vdp

  // ---------------------------------------------------------------- what can be asked for

  predicate IsScaled(v: int, scale: nat, count: nat)
    requires scale > 0
  {
    v % scale == 0 && 0 <= v < scale * count
  }

  predicate IsLength(n: nat) {
    n == 32 || n == 64 || n == 128
  }

  /** The settings that registers can express. */
  predicate Settable(s: Settings) {
    && (s.mode2.height == 28 || s.mode2.height == 30)
    && IsScaled(s.planeA, 0x2000, 8) && IsScaled(s.window, 0x800, 32) && IsScaled(s.planeB, 0x2000, 8)
    && IsScaled(s.sprite, 0x200, 128) && IsScaled(s.hscroll, 0x400, 64)
    && s.background.palette < 4 && s.background.index < 16
    && s.mode3.horizontalScroll < 4 && s.mode3.verticalScroll < 2
    && (s.width == 32 || s.width == 40)
    && IsLength(s.planeSize.width) && IsLength(s.planeSize.height)
    && IsScaled(s.windowX.coordinate, 16, 32) && IsScaled(s.windowY.coordinate, 8, 32)
    && s.dmaLength < 0x1_0000
    && s.dmaSource < if s.dmaType == MemoryToVram then 0x80_0000 else 0x40_0000
  }

  function LengthCode(n: nat): nat {
    if n == 32 then 0 else if n == 64 then 1 else 3
  }

  /** The value of each register for wanted settings, bit by bit from the lowest. */
  function Encoded(s: Settings, reg: nat): nat
    requires Settable(s)
  {
    match reg
    case 0x01 => 8 * B2I(s.mode2.height == 30) + 0x10 * B2I(s.mode2.allowDma) + 0x20 * B2I(s.mode2.vblankInterrupt)
    case 0x02 => 8 * (s.planeA / 0x2000)
    case 0x03 => 2 * (s.window / 0x800)
    case 0x04 => s.planeB / 0x2000
    case 0x05 => s.sprite / 0x200
    case 0x07 => s.background.index + 0x10 * s.background.palette
    case 0x0B => s.mode3.horizontalScroll + 4 * s.mode3.verticalScroll
    case 0x0C => B2I(s.width == 40)
    case 0x0D => s.hscroll / 0x400
    case 0x0F => s.autoIncrement
    case 0x10 => LengthCode(s.planeSize.width) + 0x10 * LengthCode(s.planeSize.height)
    case 0x11 => s.windowX.coordinate / 16 + 0x80 * B2I(s.windowX.far)
    case 0x12 => s.windowY.coordinate / 8 + 0x80 * B2I(s.windowY.far)
    case 0x13 => s.dmaLength % 0x100
    case 0x14 => s.dmaLength / 0x100
    case 0x15 => s.dmaSource % 0x100
    case 0x16 => s.dmaSource / 0x100 % 0x100
    case 0x17 =>
      s.dmaSource / 0x1_0000 + (match s.dmaType case MemoryToVram => 0 case VramFill => 0x80 case VramCopy => 0xC0)
    case _ => 0
  }

  lemma EncodedIsByte(s: Settings, reg: nat)
    requires Settable(s)
    ensures Encoded(s, reg) < 0x100
  {
    ScaledParts(s.planeA, 0x2000, 8);
    ScaledParts(s.window, 0x800, 32);
    ScaledParts(s.planeB, 0x2000, 8);
    ScaledParts(s.sprite, 0x200, 128);
    ScaledParts(s.hscroll, 0x400, 64);
    ScaledParts(s.windowX.coordinate, 16, 32);
    ScaledParts(s.windowY.coordinate, 8, 32);
    hide IsScaled;
  }

  lemma ScaledParts(v: int, scale: nat, count: nat)
    requires scale > 0 && IsScaled(v, scale, count)
    ensures v == scale * (v / scale) && 0 <= v / scale < count
  {
    DivUnique(v, scale, v / scale, 0);
    MulBound(scale, v / scale - count);
    assert scale * (v / scale - count) == v - scale * count;
    MulBound(scale, v / scale);
  }

  function RegisterFile(s: Settings): (r: seq<Byte>)
    requires Settable(s)
    ensures |r| == REGISTER_COUNT
  {
    seq(REGISTER_COUNT, reg requires 0 <= reg < REGISTER_COUNT => EncodedIsByte(s, reg); Encoded(s, reg))
  }

  // ---------------------------------------------------------------- every register means that

  /** The bits of a register that mean nothing, where they stand. */
  function Spare(reg: nat, v: Byte): nat {
    match reg
    case 0x01 => v % 8 + 0x40 * (v / 0x40)
    case 0x02 => v % 8 + 0x40 * (v / 0x40)
    case 0x03 => v % 2 + 0x40 * (v / 0x40)
    case 0x04 => 8 * (v / 8)
    case 0x05 => 0x80 * (v / 0x80)
    case 0x07 => 0x40 * (v / 0x40)
    case 0x0B => 8 * (v / 8)
    case 0x0C => 2 * (v / 2)
    case 0x0D => 0x40 * (v / 0x40)
    case 0x0F => 0
    case 0x10 => 4 * (v / 4 % 4) + 0x40 * (v / 0x40)
    case 0x11 => 0x20 * (v / 0x20 % 4)
    case 0x12 => 0x20 * (v / 0x20 % 4)
    case _ => if 0x13 <= reg <= 0x17 then 0 else v
  }

  /** A register has the wanted meaning if and only if its value is the encoded one, whatever its
      spare bits are. */
  lemma MeansExactly(s: Settings, reg: nat, v: Byte)
    requires Settable(s) && reg < REGISTER_COUNT && (reg == PLANE_SIZE ==> SizeDefined(v))
    ensures CachedAt(s, reg, v) <==> v == Encoded(s, reg) + Spare(reg, v)
  {
    BitGroups(v);
    if reg == MODE_SET_2 || reg == BACKGROUND || reg == MODE_SET_3 || reg == MODE_SET_4 || reg == PLANE_SIZE {
      ModesExactly(s, reg, v);
    } else if reg in {PLANE_A, WINDOW, PLANE_B} {
      PlanesExactly(s, reg, v);
    } else if reg in {SPRITE, HSCROLL} {
      TablesExactly(s, reg, v);
    } else if reg == WINDOW_X || reg == WINDOW_Y {
      SplitsExactly(s, reg, v);
    } else if reg >= DMA_LENGTH_LOW {
      DmaExactly(s, reg, v);
    }
    hide Settable, IsScaled;
  }

  /** A byte is put together from its groups of bits. */
  predicate Grouped(v: Byte) {
    && v == v % 8 + 8 * (v / 8 % 2) + 0x10 * (v / 0x10 % 2) + 0x20 * (v / 0x20 % 2) + 0x40 * (v / 0x40)
    && v == v % 0x10 + 0x10 * (v / 0x10 % 4) + 0x40 * (v / 0x40)
    && v == v % 4 + 4 * (v / 4 % 4) + 0x10 * (v / 0x10 % 4) + 0x40 * (v / 0x40)
    && v == v % 2 + 2 * (v / 2)
  }

  lemma BitGroups(v: Byte)
    ensures Grouped(v)
  {
    DivSplit(v, 2, 2);
    DivSplit(v, 4, 4);
    DivSplit(v, 8, 2);
    DivSplit(v, 0x10, 2);
    DivSplit(v, 0x10, 4);
    DivSplit(v, 0x20, 2);
  }

  lemma Mode2Exactly(m: Mode2, v: Byte)
    requires (m.height == 28 || m.height == 30) && Grouped(v)
    ensures m == Mode2Of(v)
            <==> v == 8 * B2I(m.height == 30) + 0x10 * B2I(m.allowDma) + 0x20 * B2I(m.vblankInterrupt)
                      + v % 8 + 0x40 * (v / 0x40)
  {
    var height, dma, interrupt, rest := v / 8 % 2, v / 0x10 % 2, v / 0x20 % 2, v % 8 + 0x40 * (v / 0x40);
    assert v == 8 * height + 0x10 * dma + 0x20 * interrupt + rest;
    assert Mode2Of(v) == Mode2(dma == 1, interrupt == 1, if height == 0 then 28 else 30);
    hide Mode2Of, Grouped;
    ThreeBits(m, height, dma, interrupt);
  }

  lemma ThreeBits(m: Mode2, height: nat, dma: nat, interrupt: nat)
    requires (m.height == 28 || m.height == 30) && height < 2 && dma < 2 && interrupt < 2
    ensures m == Mode2(dma == 1, interrupt == 1, if height == 0 then 28 else 30)
            <==> 8 * height + 0x10 * dma + 0x20 * interrupt
                 == 8 * B2I(m.height == 30) + 0x10 * B2I(m.allowDma) + 0x20 * B2I(m.vblankInterrupt)
  {
  }

  lemma SizeExactly(p: PlaneSize, v: Byte)
    requires IsLength(p.width) && IsLength(p.height) && SizeDefined(v) && Grouped(v)
    ensures p == PlaneSizeOf(v)
            <==> v == LengthCode(p.width) + 0x10 * LengthCode(p.height) + 4 * (v / 4 % 4) + 0x40 * (v / 0x40)
  {
    var w, h, rest := v % 4, v / 0x10 % 4, 4 * (v / 4 % 4) + 0x40 * (v / 0x40);
    assert v == w + 0x10 * h + rest && w != 2 && h != 2;
    hide Grouped, SizeDefined, PlaneLength, LengthCode;
    assert PlaneSizeOf(v) == PlaneSize(PlaneLength(w), PlaneLength(h));
    hide PlaneSizeOf;
    TwoLengths(p, w, h);
  }

  lemma TwoLengths(p: PlaneSize, w: nat, h: nat)
    requires IsLength(p.width) && IsLength(p.height) && w < 4 && h < 4 && w != 2 && h != 2
    ensures p == PlaneSize(PlaneLength(w), PlaneLength(h))
            <==> w + 0x10 * h == LengthCode(p.width) + 0x10 * LengthCode(p.height)
  {
  }

  lemma Mode3Exactly(m: Mode3, v: Byte)
    requires m.horizontalScroll < 4 && m.verticalScroll < 2
    ensures m == Mode3Of(v) <==> v == m.horizontalScroll + 4 * m.verticalScroll + 8 * (v / 8)
  {
    DivSplit(v, 4, 2);
    if v == m.horizontalScroll + 4 * m.verticalScroll + 8 * (v / 8) {
      DivUnique(v, 4, m.verticalScroll + 2 * (v / 8), m.horizontalScroll);
      DivUnique(v / 4, 2, v / 8, m.verticalScroll);
    }
  }

  lemma ColorsExactly(b: Background, width: nat, v: Byte)
    requires b.palette < 4 && b.index < 16 && (width == 32 || width == 40) && Grouped(v)
    ensures b == BackgroundOf(v) <==> v == b.index + 0x10 * b.palette + 0x40 * (v / 0x40)
    ensures width == WidthOf(v) <==> v == B2I(width == 40) + 2 * (v / 2)
  {
  }

  lemma ModesExactly(s: Settings, reg: nat, v: Byte)
    requires Settable(s) && reg in {MODE_SET_2, BACKGROUND, MODE_SET_3, MODE_SET_4, PLANE_SIZE}
    requires Grouped(v) && (reg == PLANE_SIZE ==> SizeDefined(v))
    ensures CachedAt(s, reg, v) <==> v == Encoded(s, reg) + Spare(reg, v)
  {
    Mode2Exactly(s.mode2, v);
    Mode3Exactly(s.mode3, v);
    ColorsExactly(s.background, s.width, v);
    if reg == PLANE_SIZE {
      SizeExactly(s.planeSize, v);
    }
    hide IsScaled, Settable, Grouped, Mode2Of, Mode3Of, BackgroundOf, WidthOf, PlaneSizeOf, LengthCode, SizeDefined;
  }

  lemma TableIs(field: nat, scale: nat, count: nat)
    requires scale > 0 && count > 0 && scale * count == 0x1_0000
    ensures TableAddress(field, scale) == scale * (field % count)
    ensures TableAddress(field, scale) / scale == field % count
  {
    var q, r := field / count, field % count;
    assert field * scale == 0x1_0000 * q + scale * r by {
      assert field == count * q + r;
      assert (count * q + r) * scale == (scale * count) * q + scale * r;
    }
    MulBound(scale, count - r);
    assert scale * (count - r) == 0x1_0000 - scale * r;
    DivUnique(field * scale, 0x1_0000, q, scale * r);
    DivUnique(scale * r, scale, r, 0);
  }

  lemma TableExactly(address: Word, field: nat, scale: nat, count: nat)
    requires scale > 0 && count > 0 && scale * count == 0x1_0000 && IsScaled(address, scale, count)
    ensures address == TableAddress(field, scale) <==> address / scale == field % count
  {
    ScaledParts(address, scale, count);
    TableIs(field, scale, count);
    hide TableAddress, IsScaled;
  }

  lemma PlanesExactly(s: Settings, reg: nat, v: Byte)
    requires Settable(s) && reg in {PLANE_A, WINDOW, PLANE_B}
    ensures CachedAt(s, reg, v) <==> v == Encoded(s, reg) + Spare(reg, v)
  {
    TableExactly(s.planeA, v / 8 % 0x10, 0x2000, 8);
    TableExactly(s.window, v / 2 % 0x40, 0x800, 32);
    TableExactly(s.planeB, v % 0x10, 0x2000, 8);
    DivSplit(v, 8, 8);
    DivSplit(v, 2, 32);
    LowDigits(v / 8, 0x10, 8);
    LowDigits(v / 2, 0x40, 32);
    LowDigits(v, 0x10, 8);
    hide TableAddress, IsScaled, Settable;
  }

  lemma LowDigits(n: nat, a: nat, b: nat)
    requires b > 0 && a == 2 * b
    ensures n % a % b == n % b
  {
    var q, r := n / a, n % a;
    assert b * (2 * q + r / b) == a * q + b * (r / b);
    DivUnique(n, b, 2 * q + r / b, r % b);
  }

  lemma TablesExactly(s: Settings, reg: nat, v: Byte)
    requires Settable(s) && reg in {SPRITE, HSCROLL}
    ensures CachedAt(s, reg, v) <==> v == Encoded(s, reg) + Spare(reg, v)
  {
    TableExactly(s.sprite, v, 0x200, 128);
    TableExactly(s.hscroll, v % 0x80, 0x400, 64);
    LowDigits(v, 0x80, 64);
    hide TableAddress, IsScaled, Settable;
  }

  lemma SplitExactly(split: Split, scale: nat, v: Byte)
    requires scale > 0 && IsScaled(split.coordinate, scale, 32)
    ensures split == SplitOf(v, scale)
            <==> v == split.coordinate / scale + 0x80 * B2I(split.far) + 0x20 * (v / 0x20 % 4)
  {
    ScaledParts(split.coordinate, scale, 32);
    DivSplit(v, 0x20, 4);
    DivUnique(v % 0x20 * scale, scale, v % 0x20, 0);
    hide IsScaled;
  }

  lemma SplitsExactly(s: Settings, reg: nat, v: Byte)
    requires Settable(s) && (reg == WINDOW_X || reg == WINDOW_Y)
    ensures CachedAt(s, reg, v) <==> v == Encoded(s, reg) + Spare(reg, v)
  {
    SplitExactly(s.windowX, 16, v);
    SplitExactly(s.windowY, 8, v);
    hide IsScaled, Settable, SplitOf;
  }

  lemma DmaExactly(s: Settings, reg: nat, v: Byte)
    requires Settable(s) && DMA_LENGTH_LOW <= reg < REGISTER_COUNT
    ensures CachedAt(s, reg, v) <==> v == Encoded(s, reg) + Spare(reg, v)
  {
    hide IsScaled, TableAddress, Mode2Of, BackgroundOf, Mode3Of, WidthOf, PlaneSizeOf, SplitOf;
  }

  lemma SizeIsDefined(want: Settings, reg: nat)
    requires Settable(want) && Encoded(want, reg) < 0x100
    ensures reg == PLANE_SIZE ==> SizeDefined(Encoded(want, reg))
  {
    hide IsScaled;
  }

  /** A register with its encoded value has the wanted meaning. */
  lemma EncodedMeans(s: Settings, reg: nat)
    requires Settable(s) && reg < REGISTER_COUNT
    ensures Encoded(s, reg) < 0x100 && CachedAt(s, reg, Encoded(s, reg))
  {
    EncodedIsByte(s, reg);
    hide CachedAt, Settable, Spare, Encoded;
    SizeIsDefined(s, reg);
    MeansExactly(s, reg, Encoded(s, reg));
    NothingSpare(s, reg);
  }

  lemma NothingSpare(s: Settings, reg: nat)
    requires Settable(s) && reg < REGISTER_COUNT && Encoded(s, reg) < 0x100
    ensures Spare(reg, Encoded(s, reg)) == 0
  {
    if reg in {PLANE_A, WINDOW, PLANE_B, SPRITE, HSCROLL} {
      NothingSpareInTables(s, reg);
    } else if reg == WINDOW_X || reg == WINDOW_Y {
      NothingSpareInSplits(s, reg);
    } else if reg == PLANE_SIZE {
      NothingSpareInLengths(LengthCode(s.planeSize.width), LengthCode(s.planeSize.height));
    } else {
      hide IsScaled, LengthCode;
    }
  }

  lemma NothingSpareInLengths(w: nat, h: nat)
    requires w < 4 && h < 4
    ensures var v := w + 0x10 * h; v / 4 % 4 == 0 && v / 0x40 == 0
  {
    DivUnique(w + 0x10 * h, 4, 4 * h, w);
    DivUnique(4 * h, 4, h, 0);
  }

  lemma NothingSpareInTables(s: Settings, reg: nat)
    requires Settable(s) && reg in {PLANE_A, WINDOW, PLANE_B, SPRITE, HSCROLL} && Encoded(s, reg) < 0x100
    ensures Spare(reg, Encoded(s, reg)) == 0
  {
    ScaledParts(s.planeA, 0x2000, 8);
    ScaledParts(s.window, 0x800, 32);
    ScaledParts(s.planeB, 0x2000, 8);
    ScaledParts(s.sprite, 0x200, 128);
    ScaledParts(s.hscroll, 0x400, 64);
    hide IsScaled, Settable;
  }

  lemma NothingSpareInSplits(s: Settings, reg: nat)
    requires Settable(s) && (reg == WINDOW_X || reg == WINDOW_Y) && Encoded(s, reg) < 0x100
    ensures Spare(reg, Encoded(s, reg)) == 0
  {
    ScaledParts(s.windowX.coordinate, 16, 32);
    ScaledParts(s.windowY.coordinate, 8, 32);
    hide IsScaled, Settable;
  }

  /** The encoded register file decodes to the wanted settings. */
  lemma DecodesEncoded(s: Settings)
    requires Settable(s)
    ensures Decode(RegisterFile(s)) == s
  {
    hide Encoded, CachedAt, Decode, Settable;
    forall reg | 0 <= reg < REGISTER_COUNT
      ensures CachedAt(s, reg, RegisterFile(s)[reg])
    {
      EncodedMeans(s, reg);
    }
    CachedIsDecoded(s, RegisterFile(s));
  }

  // ---------------------------------------------------------------- sending it

  /** The control word that writes a register. */
  function RegisterCommand(reg: nat, value: Byte): Word
    requires reg < REGISTER_COUNT
  {
    0x8000 + 0x100 * reg + value
  }

  lemma CommandParts(reg: nat, value: Byte)
    requires reg < REGISTER_COUNT
    ensures var w := RegisterCommand(reg, value);
            IsRegisterCommand(w) && w / 0x100 - 0x80 == reg && w % 0x100 == value
  {
    DivUnique(RegisterCommand(reg, value), 0x100, 0x80 + reg, value);
    DivUnique(RegisterCommand(reg, value), 0x2000, 4, 0x100 * reg + value);
  }

  /** The word that is sent for one register gives its fields the wanted meaning, leaves the
      fields of all other registers alone, and touches nothing else. */
  lemma CommandSets(s: State, devices: seq<MappedDevice>, want: Settings, reg: nat)
    requires s.Valid() && Settable(want) && reg < REGISTER_COUNT
    ensures Encoded(want, reg) < 0x100
    ensures var o := Control(s, devices, RegisterCommand(reg, Encoded(want, reg)));
            && o.Done? && CachedAt(o.state.settings, reg, Encoded(want, reg))
            && CachedAt(want, reg, Encoded(want, reg))
            && (forall other, v: Byte :: other != reg && CachedAt(s.settings, other, v)
                                         ==> CachedAt(o.state.settings, other, v))
            && o.state == s.(settings := o.state.settings, registers := s.registers[reg := Encoded(want, reg)])
  {
    hide Encoded, CachedAt, Settable, Set;
    EncodedMeans(want, reg);
    var v: Byte := Encoded(want, reg);
    CommandParts(reg, v);
    SizeIsDefined(want, reg);
    SetCaches(s.settings, reg, v);
    forall other, w: Byte | other != reg && CachedAt(s.settings, other, w)
      ensures CachedAt(Set(s.settings, reg, v), other, w)
    {
      SetFrames(s.settings, reg, v, other, w);
    }
  }

  /** The words for the first n registers. */
  function Setup(want: Settings, n: nat): (events: seq<Event>)
    requires Settable(want) && n <= REGISTER_COUNT
    ensures |events| == n
  {
    if n == 0 then []
    else
      EncodedIsByte(want, n - 1);
      Setup(want, n - 1) + [ControlWrite(RegisterCommand(n - 1, Encoded(want, n - 1)))]
  }

  lemma {:induction false} SetupRuns(s: State, devices: seq<MappedDevice>, want: Settings, n: nat)
    requires s.Valid() && Settable(want) && n <= REGISTER_COUNT
    ensures Run(s, devices, Setup(want, n))
            == Some(s.(settings := Replay(s.settings, RegisterFile(want), n),
                       registers := RegisterFile(want)[..n] + s.registers[n..]))
  {
    hide Encoded, Settable, Set, Run, RegisterFile;
    if n == 0 {
      assert RegisterFile(want)[..0] + s.registers[0..] == s.registers;
      NoEvents(s, devices);
    } else {
      SetupRuns(s, devices, want, n - 1);
      EncodedIsByte(want, n - 1);
      FileHolds(want, n - 1);
      var e := ControlWrite(RegisterCommand(n - 1, Encoded(want, n - 1)));
      RunOnce(s, devices, Setup(want, n - 1), e);
      CommandParts(n - 1, Encoded(want, n - 1));
      SizeIsDefined(want, n - 1);
      OneMoreRegister(RegisterFile(want), s.registers, n);
    }
  }

  lemma FileHolds(want: Settings, reg: nat)
    requires Settable(want) && reg < REGISTER_COUNT
    ensures RegisterFile(want)[reg] == Encoded(want, reg)
  {
    hide Encoded, Settable;
  }

  lemma OneMoreRegister(file: seq<Byte>, registers: seq<Byte>, n: nat)
    requires |file| == |registers| == REGISTER_COUNT && 0 < n <= REGISTER_COUNT
    ensures (file[..n - 1] + registers[n - 1..])[n - 1 := file[n - 1]] == file[..n] + registers[n..]
  {
  }

  /** Sending the words for wanted settings, to a processor in any state, gives it exactly these
      settings and changes nothing but its registers. */
  lemma SetupSets(s: State, devices: seq<MappedDevice>, want: Settings)
    requires s.Valid() && Settable(want)
    ensures Run(s, devices, Setup(want, REGISTER_COUNT))
            == Some(s.(settings := want, registers := RegisterFile(want)))
  {
    hide Run, Settable, Decode, Replay, RegisterFile;
    SetupRuns(s, devices, want, REGISTER_COUNT);
    ReplayDecodes(s.settings, RegisterFile(want));
    DecodesEncoded(want);
    assert RegisterFile(want)[..REGISTER_COUNT] + s.registers[REGISTER_COUNT..] == RegisterFile(want);
  }

  // ---------------------------------------------------------------- nothing else can be had

  lemma TableIsScaled(field: nat, scale: nat, count: nat)
    requires scale > 0 && count > 0 && scale * count == 0x1_0000
    ensures IsScaled(TableAddress(field, scale), scale, count)
  {
    TableIs(field, scale, count);
    MulBound(scale, count - field % count);
    DivUnique(scale * (field % count), scale, field % count, 0);
    hide TableAddress;
  }

  /** What a register file decodes to can be asked for, when its plane size is defined. */
  lemma DecodedIsSettable(r: seq<Byte>)
    requires |r| == REGISTER_COUNT && SizeDefined(r[PLANE_SIZE])
    ensures Settable(Decode(r))
  {
    TableIsScaled(r[PLANE_A] / 8 % 0x10, 0x2000, 8);
    TableIsScaled(r[WINDOW] / 2 % 0x40, 0x800, 32);
    TableIsScaled(r[PLANE_B] % 0x10, 0x2000, 8);
    TableIsScaled(r[SPRITE], 0x200, 128);
    TableIsScaled(r[HSCROLL] % 0x80, 0x400, 64);
    SplitIsScaled(r[WINDOW_X], 16);
    SplitIsScaled(r[WINDOW_Y], 8);
    hide IsScaled, TableAddress;
  }

  lemma SplitIsScaled(v: Byte, scale: nat)
    requires scale > 0
    ensures IsScaled(SplitOf(v, scale).coordinate, scale, 32)
  {
    DivUnique(v % 0x20 * scale, scale, v % 0x20, 0);
    MulBound(scale, 32 - v % 0x20);
    assert scale * (32 - v % 0x20) == scale * 32 - v % 0x20 * scale;
  }

  /** The encoder reaches all the settings there are: some register file with a defined plane
      size decodes to them if and only if they can be asked for. */
  lemma SettableExactly(want: Settings)
    ensures Settable(want)
            <==> exists r: seq<Byte> :: |r| == REGISTER_COUNT && SizeDefined(r[PLANE_SIZE]) && Decode(r) == want
  {
    hide Settable, Decode, SizeDefined, RegisterFile;
    if Settable(want) {
      DecodesEncoded(want);
      EncodedIsByte(want, PLANE_SIZE);
      FileHolds(want, PLANE_SIZE);
      SizeIsDefined(want, PLANE_SIZE);
      assert SizeDefined(RegisterFile(want)[PLANE_SIZE]);
    }
    forall r: seq<Byte> | |r| == REGISTER_COUNT && SizeDefined(r[PLANE_SIZE])
      ensures Settable(Decode(r))
    {
      DecodedIsSettable(r);
    }
  }
}
