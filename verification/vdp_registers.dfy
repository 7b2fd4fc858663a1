/** The registers of the video display processor and the fields the source caches from them
    (src/sega/memory/vdp_device.cpp:507-764). */
module VdpRegisters {
  import opened Words

  const REGISTER_COUNT := 24

  // register numbers, counted from the first one (0x80)
  const MODE_SET_2 := 0x01
  const PLANE_A := 0x02
  const WINDOW := 0x03
  const PLANE_B := 0x04
  const SPRITE := 0x05
  const BACKGROUND := 0x07
  const MODE_SET_3 := 0x0B
  const MODE_SET_4 := 0x0C
  const HSCROLL := 0x0D
  const AUTO_INCREMENT := 0x0F
  const PLANE_SIZE := 0x10
  const WINDOW_X := 0x11
  const WINDOW_Y := 0x12
  const DMA_LENGTH_LOW := 0x13
  const DMA_LENGTH_HIGH := 0x14
  const DMA_SOURCE_LOW := 0x15
  const DMA_SOURCE_MIDDLE := 0x16
  const DMA_SOURCE_HIGH := 0x17

  datatype DmaType = MemoryToVram | VramFill | VramCopy
  datatype Mode2 = Mode2(allowDma: bool, vblankInterrupt: bool, height: nat)
  datatype Background = Background(palette: nat, index: nat)
  datatype Mode3 = Mode3(horizontalScroll: nat, verticalScroll: nat)
  datatype PlaneSize = PlaneSize(width: nat, height: nat)
  datatype Split = Split(coordinate: nat, far: bool)

  /** The cached fields, grouped by the register they come from. */
  datatype Settings = Settings(
    mode2: Mode2, planeA: Word, window: Word, planeB: Word, sprite: Word, background: Background,
    mode3: Mode3, width: nat, hscroll: Word, autoIncrement: Byte, planeSize: PlaneSize,
    windowX: Split, windowY: Split, dmaLength: Long, dmaSource: Long, dmaType: DmaType)

  /** Power-on: every field is zero-initialised. */
  const INITIAL := Settings(
    Mode2(false, false, 0), 0, 0, 0, 0, Background(0, 0), Mode3(0, 0), 0, 0, 0, PlaneSize(0, 0),
    Split(0, false), Split(0, false), 0, 0, MemoryToVram)

  // ---------------------------------------------------------------- what a register means

  function Mode2Of(v: Byte): Mode2 {
    Mode2(v / 0x10 % 2 == 1, v / 0x20 % 2 == 1, if v / 8 % 2 == 0 then 28 else 30)
  }

  /** A table address is a field of the register times a scale, kept in 16 bits. */
  function TableAddress(field: nat, scale: nat): Word {
    field * scale % 0x1_0000
  }

  function BackgroundOf(v: Byte): Background {
    Background(v / 0x10 % 4, v % 0x10)
  }

  function Mode3Of(v: Byte): Mode3 {
    Mode3(v % 4, v / 4 % 2)
  }

  function WidthOf(v: Byte): nat {
    if v % 2 == 0 then 32 else 40
  }

  /** The plane size field 0b10 has no value in the source. */
  predicate SizeDefined(v: Byte) {
    v % 4 != 2 && v / 0x10 % 4 != 2
  }

  function PlaneLength(field: nat): nat {
    if field == 0 then 32 else if field == 1 then 64 else 128
  }

  function PlaneSizeOf(v: Byte): PlaneSize {
    PlaneSize(PlaneLength(v % 4), PlaneLength(v / 0x10 % 4))
  }

  function SplitOf(v: Byte, scale: nat): Split {
    Split(v % 0x20 * scale, v / 0x80 == 1)
  }

  function SourceHigh(v: Byte): (h: nat)
    ensures h < 0x80
  {
    v % 0x40 + (if v / 0x40 == 1 then 0x40 else 0)
  }

  function DmaTypeOf(v: Byte): DmaType {
    if v / 0x40 == 2 then VramFill else if v / 0x40 == 3 then VramCopy else MemoryToVram
  }

  function Assembled(low: nat, middle: nat, high: nat): Long
    requires low < 0x100 && middle < 0x100 && high < 0x80
  {
    low + 0x100 * middle + 0x1_0000 * high
  }

  /** The decoding of a whole register file. */
  function Decode(r: seq<Byte>): Settings
    requires |r| == REGISTER_COUNT
  {
    Settings(
      Mode2Of(r[MODE_SET_2]), TableAddress(r[PLANE_A] / 8 % 0x10, 0x2000), TableAddress(r[WINDOW] / 2 % 0x40, 0x800),
      TableAddress(r[PLANE_B] % 0x10, 0x2000), TableAddress(r[SPRITE], 0x200), BackgroundOf(r[BACKGROUND]),
      Mode3Of(r[MODE_SET_3]), WidthOf(r[MODE_SET_4]), TableAddress(r[HSCROLL] % 0x80, 0x400), r[AUTO_INCREMENT],
      PlaneSizeOf(r[PLANE_SIZE]), SplitOf(r[WINDOW_X], 16), SplitOf(r[WINDOW_Y], 8),
      Assembled(r[DMA_LENGTH_LOW], r[DMA_LENGTH_HIGH], 0),
      Assembled(r[DMA_SOURCE_LOW], r[DMA_SOURCE_MIDDLE], SourceHigh(r[DMA_SOURCE_HIGH])),
      DmaTypeOf(r[DMA_SOURCE_HIGH]))
  }

  // ---------------------------------------------------------------- one register write

  /** The setters: what writing v to register reg does to the cached fields.  The masks of the
      DMA setters also drop what lies above the assembled number. */
  function Set(s: Settings, reg: nat, v: Byte): Settings {
    if reg == MODE_SET_2 then s.(mode2 := Mode2Of(v))
    else if reg == PLANE_A then s.(planeA := TableAddress(v / 8 % 0x10, 0x2000))
    else if reg == WINDOW then s.(window := TableAddress(v / 2 % 0x40, 0x800))
    else if reg == PLANE_B then s.(planeB := TableAddress(v % 0x10, 0x2000))
    else if reg == SPRITE then s.(sprite := TableAddress(v, 0x200))
    else if reg == BACKGROUND then s.(background := BackgroundOf(v))
    else if reg == MODE_SET_3 then s.(mode3 := Mode3Of(v))
    else if reg == MODE_SET_4 then s.(width := WidthOf(v))
    else if reg == HSCROLL then s.(hscroll := TableAddress(v % 0x80, 0x400))
    else if reg == AUTO_INCREMENT then s.(autoIncrement := v)
    else if reg == PLANE_SIZE then s.(planeSize := PlaneSizeOf(v))
    else if reg == WINDOW_X then s.(windowX := SplitOf(v, 16))
    else if reg == WINDOW_Y then s.(windowY := SplitOf(v, 8))
    else if reg == DMA_LENGTH_LOW then s.(dmaLength := s.dmaLength % 0x1_0000 / 0x100 * 0x100 + v)
    else if reg == DMA_LENGTH_HIGH then s.(dmaLength := s.dmaLength % 0x100 + v * 0x100)
    else if reg == DMA_SOURCE_LOW then s.(dmaSource := s.dmaSource % 0x100_0000 / 0x100 * 0x100 + v)
    else if reg == DMA_SOURCE_MIDDLE then
      s.(dmaSource := s.dmaSource % 0x100_0000 / 0x1_0000 * 0x1_0000 + v * 0x100 + s.dmaSource % 0x100)
    else if reg == DMA_SOURCE_HIGH then
      s.(dmaSource := s.dmaSource % 0x1_0000 + SourceHigh(v) * 0x1_0000, dmaType := DmaTypeOf(v))
    else s
  }

  // ---------------------------------------------------------------- agreement

  /** The cached fields of one register are what its value decodes to. */
  predicate CachedAt(s: Settings, reg: nat, v: Byte) {
    if reg == MODE_SET_2 then s.mode2 == Mode2Of(v)
    else if reg == PLANE_A then s.planeA == TableAddress(v / 8 % 0x10, 0x2000)
    else if reg == WINDOW then s.window == TableAddress(v / 2 % 0x40, 0x800)
    else if reg == PLANE_B then s.planeB == TableAddress(v % 0x10, 0x2000)
    else if reg == SPRITE then s.sprite == TableAddress(v, 0x200)
    else if reg == BACKGROUND then s.background == BackgroundOf(v)
    else if reg == MODE_SET_3 then s.mode3 == Mode3Of(v)
    else if reg == MODE_SET_4 then s.width == WidthOf(v)
    else if reg == HSCROLL then s.hscroll == TableAddress(v % 0x80, 0x400)
    else if reg == AUTO_INCREMENT then s.autoIncrement == v
    else if reg == PLANE_SIZE then s.planeSize == PlaneSizeOf(v)
    else if reg == WINDOW_X then s.windowX == SplitOf(v, 16)
    else if reg == WINDOW_Y then s.windowY == SplitOf(v, 8)
    else if reg == DMA_LENGTH_LOW then s.dmaLength % 0x100 == v
    else if reg == DMA_LENGTH_HIGH then s.dmaLength / 0x100 == v
    else if reg == DMA_SOURCE_LOW then s.dmaSource % 0x100 == v
    else if reg == DMA_SOURCE_MIDDLE then s.dmaSource / 0x100 % 0x100 == v
    else if reg == DMA_SOURCE_HIGH then s.dmaSource / 0x1_0000 == SourceHigh(v) && s.dmaType == DmaTypeOf(v)
    else true
  }

  /** The three groups whose decoding of zero is not all zeros may still have their power-on
      value. */
  predicate BlankAt(s: Settings, reg: nat, v: Byte) {
    && v == 0
    && (if reg == MODE_SET_2 then s.mode2 == INITIAL.mode2
        else if reg == MODE_SET_4 then s.width == INITIAL.width
        else reg == PLANE_SIZE && s.planeSize == INITIAL.planeSize)
  }

  ghost predicate Agrees(s: Settings, r: seq<Byte>)
    requires |r| == REGISTER_COUNT
  {
    forall reg :: 0 <= reg < REGISTER_COUNT ==> CachedAt(s, reg, r[reg]) || BlankAt(s, reg, r[reg])
  }

  const BLANK: seq<Byte> := seq(REGISTER_COUNT, _ => 0)

  lemma InitialAgrees()
    ensures Agrees(INITIAL, BLANK)
  {
    forall reg | 0 <= reg < REGISTER_COUNT
      ensures CachedAt(INITIAL, reg, 0) || BlankAt(INITIAL, reg, 0)
    {
    }
  }

  lemma Parts(x: nat, a: nat, b: nat, c: nat)
    requires x == a + 0x100 * b + 0x1_0000 * c && a < 0x100 && b < 0x100
    ensures x % 0x100 == a && x / 0x100 % 0x100 == b && x / 0x1_0000 == c
    ensures x / 0x100 == b + 0x100 * c
    ensures x % 0x1_0000 == a + 0x100 * b && x % 0x1_0000 / 0x100 == b
    ensures c < 0x100 ==> x % 0x100_0000 == x
  {
    DivUnique(x, 0x100, b + 0x100 * c, a);
    DivUnique(b + 0x100 * c, 0x100, c, b);
    DivUnique(x, 0x1_0000, c, a + 0x100 * b);
    DivUnique(a + 0x100 * b, 0x100, b, a);
  }

  lemma ToParts(x: nat) returns (a: nat, b: nat, c: nat)
    ensures x == a + 0x100 * b + 0x1_0000 * c && a < 0x100 && b < 0x100
    ensures a == x % 0x100 && b == x / 0x100 % 0x100 && c == x / 0x1_0000
    ensures x % 0x100_0000 == a + 0x100 * b + 0x1_0000 * (c % 0x100)
    ensures x % 0x1_0000 == a + 0x100 * b
  {
    var rest := x / 0x100;
    a, b, c := x % 0x100, rest % 0x100, rest / 0x100;
    Parts(x, a, b, c);
    var d, e := c / 0x100, c % 0x100;
    DivUnique(x, 0x100_0000, d, a + 0x100 * b + 0x1_0000 * e);
  }

  /** The mask operations on the assembled DMA numbers replace one byte and keep the others. */
  lemma ReplaceLow(x: nat, v: Byte)
    ensures var y := x % 0x100_0000 / 0x100 * 0x100 + v;
            && y % 0x100 == v
            && y / 0x100 % 0x100 == x / 0x100 % 0x100
            && (x < 0x100_0000 ==> y / 0x1_0000 == x / 0x1_0000)
  {
    var a, b, c := ToParts(x);
    var e := c % 0x100;
    Parts(x % 0x100_0000, a, b, e);
    Parts(v + 0x100 * b + 0x1_0000 * e, v, b, e);
    assert x < 0x100_0000 ==> e == c;
  }

  lemma ReplaceMiddle(x: nat, v: Byte)
    ensures var y := x % 0x100_0000 / 0x1_0000 * 0x1_0000 + v * 0x100 + x % 0x100;
            && y % 0x100 == x % 0x100
            && y / 0x100 % 0x100 == v
            && (x < 0x100_0000 ==> y / 0x1_0000 == x / 0x1_0000)
  {
    var a, b, c := ToParts(x);
    var e := c % 0x100;
    Parts(x % 0x100_0000, a, b, e);
    Parts(a + 0x100 * v + 0x1_0000 * e, a, v, e);
    assert x < 0x100_0000 ==> e == c;
  }

  lemma ReplaceHigh(x: nat, h: nat)
    ensures var y := x % 0x1_0000 + h * 0x1_0000;
            && y % 0x100 == x % 0x100
            && y / 0x100 % 0x100 == x / 0x100 % 0x100
            && y / 0x1_0000 == h
  {
    var a, b, c := ToParts(x);
    Parts(a + 0x100 * b + 0x1_0000 * h, a, b, h);
  }

  lemma ReplaceLengthLow(x: nat, v: Byte)
    ensures var y := x % 0x1_0000 / 0x100 * 0x100 + v;
            && y % 0x100 == v
            && (x < 0x1_0000 ==> y / 0x100 == x / 0x100)
  {
    var a, b, c := ToParts(x);
    Parts(x % 0x1_0000, a, b, 0);
    Parts(v + 0x100 * b, v, b, 0);
  }

  lemma ReplaceLengthHigh(x: nat, v: Byte)
    ensures var y := x % 0x100 + v * 0x100;
            y % 0x100 == x % 0x100 && y / 0x100 == v
  {
    Parts(x % 0x100 + 0x100 * v, x % 0x100, v, 0);
  }

  /** Writing a register makes its cached fields agree. */
  lemma SetCaches(s: Settings, reg: nat, v: Byte)
    ensures CachedAt(Set(s, reg, v), reg, v)
  {
    hide Mode2Of, TableAddress, BackgroundOf, Mode3Of, WidthOf, PlaneSizeOf, SplitOf, SourceHigh, DmaTypeOf;
    ReplaceLow(s.dmaSource, v);
    ReplaceMiddle(s.dmaSource, v);
    ReplaceHigh(s.dmaSource, SourceHigh(v));
    ReplaceLengthLow(s.dmaLength, v);
    ReplaceLengthHigh(s.dmaLength, v);
  }

  /** And leaves those of every other register alone. */
  lemma SetFrames(s: Settings, reg: nat, v: Byte, other: nat, w: Byte)
    requires other != reg
    ensures CachedAt(s, other, w) ==> CachedAt(Set(s, reg, v), other, w)
    ensures BlankAt(s, other, w) ==> BlankAt(Set(s, reg, v), other, w)
  {
    hide CachedAt, BlankAt, Set;
    SetFramesCached(s, reg, v, other, w);
    SetFramesBlank(s, reg, v, other, w);
  }

  lemma SetFramesBlank(s: Settings, reg: nat, v: Byte, other: nat, w: Byte)
    requires other != reg
    ensures BlankAt(s, other, w) ==> BlankAt(Set(s, reg, v), other, w)
  {
    hide Mode2Of, TableAddress, BackgroundOf, Mode3Of, WidthOf, PlaneSizeOf, SplitOf, SourceHigh, DmaTypeOf;
  }

  lemma SetFramesCached(s: Settings, reg: nat, v: Byte, other: nat, w: Byte)
    requires other != reg
    ensures CachedAt(s, other, w) ==> CachedAt(Set(s, reg, v), other, w)
  {
    hide CachedAt, Set;
    if reg >= DMA_LENGTH_LOW && other >= DMA_LENGTH_LOW {
      SetFramesDma(s, reg, v, other, w);
    } else {
      SetFramesApart(s, reg, v, other, w);
    }
  }

  lemma SetFramesApart(s: Settings, reg: nat, v: Byte, other: nat, w: Byte)
    requires other != reg && (reg < DMA_LENGTH_LOW || other < DMA_LENGTH_LOW)
    ensures CachedAt(s, other, w) ==> CachedAt(Set(s, reg, v), other, w)
  {
    hide Mode2Of, TableAddress, BackgroundOf, Mode3Of, WidthOf, PlaneSizeOf, SplitOf, SourceHigh, DmaTypeOf;
  }

  /** The registers whose fields share the assembled numbers. */
  lemma SetFramesDma(s: Settings, reg: nat, v: Byte, other: nat, w: Byte)
    requires other != reg && reg >= DMA_LENGTH_LOW && other >= DMA_LENGTH_LOW
    ensures CachedAt(s, other, w) ==> CachedAt(Set(s, reg, v), other, w)
  {
    hide Mode2Of, TableAddress, BackgroundOf, Mode3Of, WidthOf, PlaneSizeOf, SplitOf, SourceHigh, DmaTypeOf;
    if reg == DMA_LENGTH_LOW {
      ReplaceLengthLow(s.dmaLength, v);
    } else if reg == DMA_LENGTH_HIGH {
      ReplaceLengthHigh(s.dmaLength, v);
    } else if reg == DMA_SOURCE_LOW {
      ReplaceLow(s.dmaSource, v);
    } else if reg == DMA_SOURCE_MIDDLE {
      ReplaceMiddle(s.dmaSource, v);
    } else if reg == DMA_SOURCE_HIGH {
      ReplaceHigh(s.dmaSource, SourceHigh(v));
    }
  }

  /** Every register write keeps the agreement: the fields assembled from several registers
      included, whatever the order of the writes. */
  lemma SetAgrees(s: Settings, r: seq<Byte>, reg: nat, v: Byte)
    requires |r| == REGISTER_COUNT && reg < REGISTER_COUNT && Agrees(s, r)
    ensures Agrees(Set(s, reg, v), r[reg := v])
  {
    SetCaches(s, reg, v);
    forall other | 0 <= other < REGISTER_COUNT && other != reg
      ensures CachedAt(Set(s, reg, v), other, r[other]) || BlankAt(Set(s, reg, v), other, r[other])
    {
      SetFrames(s, reg, v, other, r[other]);
    }
  }

  /** Write the registers from first to last, as a restore does. */
  function Replay(s: Settings, r: seq<Byte>, n: nat): Settings
    requires n <= |r|
  {
    if n == 0 then s else Set(Replay(s, r, n - 1), n - 1, r[n - 1])
  }

  lemma {:induction false} ReplayCaches(s: Settings, r: seq<Byte>, n: nat, reg: nat)
    requires reg < n <= |r|
    ensures CachedAt(Replay(s, r, n), reg, r[reg])
  {
    if reg == n - 1 {
      SetCaches(Replay(s, r, n - 1), reg, r[reg]);
    } else {
      ReplayCaches(s, r, n - 1, reg);
      SetFrames(Replay(s, r, n - 1), n - 1, r[n - 1], reg, r[reg]);
    }
  }

  /** When every register's fields agree, together they are the decoding of the file. */
  lemma CachedIsDecoded(s: Settings, r: seq<Byte>)
    requires |r| == REGISTER_COUNT
    requires forall reg :: 0 <= reg < REGISTER_COUNT ==> CachedAt(s, reg, r[reg])
    ensures s == Decode(r)
  {
    hide Mode2Of, TableAddress, BackgroundOf, Mode3Of, WidthOf, PlaneSizeOf, SplitOf, SourceHigh, DmaTypeOf;
    var a, b, c := ToParts(s.dmaSource);
    var a', b', c' := ToParts(s.dmaLength);
    assert CachedAt(s, MODE_SET_2, r[MODE_SET_2]) && CachedAt(s, PLANE_A, r[PLANE_A]) && CachedAt(s, WINDOW, r[WINDOW]);
    assert CachedAt(s, PLANE_B, r[PLANE_B]) && CachedAt(s, SPRITE, r[SPRITE]) && CachedAt(s, BACKGROUND, r[BACKGROUND]);
    assert CachedAt(s, MODE_SET_3, r[MODE_SET_3]) && CachedAt(s, MODE_SET_4, r[MODE_SET_4]);
    assert CachedAt(s, HSCROLL, r[HSCROLL]);
    assert CachedAt(s, AUTO_INCREMENT, r[AUTO_INCREMENT]) && CachedAt(s, PLANE_SIZE, r[PLANE_SIZE]);
    assert CachedAt(s, WINDOW_X, r[WINDOW_X]) && CachedAt(s, WINDOW_Y, r[WINDOW_Y]);
    assert CachedAt(s, DMA_LENGTH_LOW, r[DMA_LENGTH_LOW]) && CachedAt(s, DMA_LENGTH_HIGH, r[DMA_LENGTH_HIGH]);
    assert CachedAt(s, DMA_SOURCE_LOW, r[DMA_SOURCE_LOW]) && CachedAt(s, DMA_SOURCE_MIDDLE, r[DMA_SOURCE_MIDDLE]);
    assert CachedAt(s, DMA_SOURCE_HIGH, r[DMA_SOURCE_HIGH]);
  }

  /** From any cached fields whatever, replaying a register file gives exactly its decoding. */
  lemma ReplayDecodes(s: Settings, r: seq<Byte>)
    requires |r| == REGISTER_COUNT
    ensures Replay(s, r, REGISTER_COUNT) == Decode(r)
  {
    forall reg | 0 <= reg < REGISTER_COUNT
      ensures CachedAt(Replay(s, r, REGISTER_COUNT), reg, r[reg])
    {
      ReplayCaches(s, r, REGISTER_COUNT, reg);
    }
    CachedIsDecoded(Replay(s, r, REGISTER_COUNT), r);
  }

  /** The three registers whose cached fields tell that they were written. */
  predicate GeometryWritten(s: Settings) {
    s.mode2.height != 0 && s.width != 0 && s.planeSize.width != 0
  }

  /** With the agreement, the cached fields are the decoding of the register file if and only
      if mode 2, mode 4 and the plane size have been written. */
  lemma DecodedExactly(s: Settings, r: seq<Byte>)
    requires |r| == REGISTER_COUNT && Agrees(s, r)
    ensures s == Decode(r) <==> GeometryWritten(s)
  {
    if GeometryWritten(s) {
      forall reg | 0 <= reg < REGISTER_COUNT
        ensures CachedAt(s, reg, r[reg])
      {
      }
      CachedIsDecoded(s, r);
    }
  }
}
