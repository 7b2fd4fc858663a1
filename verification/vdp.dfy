/** The video display processor's ports (src/sega/memory/vdp_device.cpp:293-581): a two-word
    command state machine over three RAMs and a register file. */
module Vdp {
  import opened Words
  import opened Ram
  import opened Bus
  import opened Dma
  import opened VdpRegisters

  const VRAM_SIZE := 65536
  const VSRAM_SIZE := 80
  const CRAM_SIZE := 128

  datatype RamKind = Vram | Vsram | Cram

  datatype State = State(
    settings: Settings, registers: seq<Byte>, vram: seq<Byte>, vsram: seq<Byte>, cram: seq<Byte>,
    firstHalf: Option<Word>, useDma: bool, ramKind: RamKind, ramAddress: Word)
  {
    predicate Valid() {
      |registers| == REGISTER_COUNT && |vram| == VRAM_SIZE && |vsram| == VSRAM_SIZE && |cram| == CRAM_SIZE
    }

    function RamData(): seq<Byte> {
      match ramKind
      case Vram => vram
      case Vsram => vsram
      case Cram => cram
    }

    function SetRam(data: seq<Byte>): State {
      match ramKind
      case Vram => this.(vram := data)
      case Vsram => this.(vsram := data)
      case Cram => this.(cram := data)
    }
  }

  const POWER_ON := State(
    INITIAL, BLANK, seq(VRAM_SIZE, _ => 0), seq(VSRAM_SIZE, _ => 0), seq(CRAM_SIZE, _ => 0), None, false, Vram, 0)

  /** The end of a port access: done, an error that leaves a state behind, or something the
      source leaves undefined (an access outside a RAM, an undefined plane size) or aborts on. */
  datatype Outcome = Done(state: State) | Failed(state: State) | Undefined

  // ---------------------------------------------------------------- the control port

  /** Register writes have the three highest bits 100. */
  predicate IsRegisterCommand(command: Word) {
    command / 0x2000 == 4
  }

  function WriteRegister(s: State, command: Word): Outcome
    requires s.Valid() && IsRegisterCommand(command)
  {
    var reg := command / 0x100 - 0x80;
    var value := command % 0x100;
    if reg >= REGISTER_COUNT then Failed(s)
    else if reg == PLANE_SIZE && !SizeDefined(value) then Undefined
    else Done(s.(settings := Set(s.settings, reg, value), registers := s.registers[reg := value]))
  }

  /** The RAM a command selects: bits CD0 to CD3. */
  function SelectedRam(first: Word, second: Word): Option<RamKind> {
    var cd0, cd1, cd2, cd3 := first / 0x4000 % 2, first / 0x8000 % 2, second / 0x10 % 2, second / 0x20 % 2;
    var mask := cd3 * 8 + cd2 * 4 + cd1 * 2 + cd0;
    if mask == 1 || mask == 0 then Some(Vram)
    else if mask == 3 || mask == 8 then Some(Cram)
    else if mask == 5 || mask == 4 then Some(Vsram)
    else None
  }

  function CommandAddress(first: Word, second: Word): Word {
    first % 0x4000 + second % 4 * 0x4000
  }

  /** A transfer started by a command. */
  function Transferred(s: State, devices: seq<MappedDevice>): Transfer
    requires s.Valid()
  {
    var source := 2 * s.settings.dmaSource;
    if s.settings.autoIncrement == 2 then
      BlockCopy(devices, s.RamData(), s.ramAddress, source, s.settings.dmaLength)
    else
      WordCopy(devices, s.RamData(), s.ramAddress, source, s.settings.dmaLength, s.settings.autoIncrement)
  }

  /** The second word of a command.  An invalid RAM selection and an unsupported transfer are
      reported before the pending first word is dropped. */
  function SecondHalf(s: State, devices: seq<MappedDevice>, first: Word, second: Word): Outcome
    requires s.Valid()
  {
    var useDma := second / 0x80 % 2 == 1 && s.settings.mode2.allowDma;
    var addressed := s.(ramAddress := CommandAddress(first, second), useDma := useDma);
    match SelectedRam(first, second)
    case None => Failed(addressed)
    case Some(kind) =>
      var selected := addressed.(ramKind := kind);
      if useDma && s.settings.dmaType == VramCopy then Failed(selected)
      else if useDma && s.settings.dmaType == MemoryToVram then
        match Transferred(selected, devices)
        case Copied(ram, address) =>
          Done(selected.SetRam(ram).(ramAddress := address, useDma := false, firstHalf := None))
        case Unmapped(ram, address) => Failed(selected.SetRam(ram).(ramAddress := address))
        case OutOfBounds => Undefined
      else Done(selected.(firstHalf := None))
  }

  function Control(s: State, devices: seq<MappedDevice>, command: Word): Outcome
    requires s.Valid()
  {
    if IsRegisterCommand(command) then WriteRegister(s, command)
    else match s.firstHalf
      case None => Done(s.(firstHalf := Some(command)))
      case Some(first) => SecondHalf(s, devices, first, command)
  }

  // ---------------------------------------------------------------- the data port

  function DataWrite(s: State, data: Word): Outcome
    requires s.Valid()
  {
    if s.useDma && s.settings.dmaType != VramFill then Undefined
    else if s.useDma then
      var start := FillStart(s.ramAddress, s.settings.autoIncrement);
      match Fill(s.RamData(), start, 2 * s.settings.dmaLength, s.settings.autoIncrement, data % 0x100)
      case Copied(ram, address) => Done(s.SetRam(ram).(ramAddress := address, useDma := false))
      case _ => Undefined
    else
      var at := s.ramAddress;
      var next := (at + s.settings.autoIncrement) % ADDRESS_RANGE;
      if at + 1 < |s.RamData()| then
        Done(s.SetRam(Written(s.RamData(), at, WordBytes(data))).(ramAddress := next))
      else Done(s.(ramAddress := next))
  }

  /** Reading one or two bytes moves the address by one each and is not bounded. */
  function DataRead(s: State, n: nat): Outcome
    requires s.Valid()
  {
    if s.ramAddress + n <= |s.RamData()| then
      Done(s.(ramAddress := (s.ramAddress + n) % ADDRESS_RANGE))
    else Undefined
  }

  // ---------------------------------------------------------------- save and restore

  /** Register file, then the three RAMs. */
  function Dump(s: State): seq<Byte> {
    s.registers + s.vram + s.vsram + s.cram
  }

  const DUMP_SIZE := REGISTER_COUNT + VRAM_SIZE + VSRAM_SIZE + CRAM_SIZE

  /** Restore from a dump: every register is written in turn, then the register file and the
      RAMs are copied.  A dump that is too short, or whose plane size is undefined, has no
      defined effect. */
  function Apply(s: State, dump: seq<Byte>): Outcome
    requires s.Valid()
  {
    if |dump| < DUMP_SIZE || !SizeDefined(dump[PLANE_SIZE]) then Undefined
    else
      var r := dump[..REGISTER_COUNT];
      var vramEnd := REGISTER_COUNT + VRAM_SIZE;
      var vsramEnd := vramEnd + VSRAM_SIZE;
      Done(s.(settings := Replay(s.settings, r, REGISTER_COUNT), registers := r,
              vram := dump[REGISTER_COUNT..vramEnd], vsram := dump[vramEnd..vsramEnd],
              cram := dump[vsramEnd..vsramEnd + CRAM_SIZE]))
  }

  // ---------------------------------------------------------------- reachable states

  datatype Event =
    ControlWrite(command: Word) | DataPortWrite(data: Word) | DataPortRead(n: nat) | Restore(dump: seq<Byte>)

  function Step(s: State, devices: seq<MappedDevice>, e: Event): Outcome
    requires s.Valid()
  {
    match e
    case ControlWrite(command) => Control(s, devices, command)
    case DataPortWrite(data) => DataWrite(s, data)
    case DataPortRead(n) => DataRead(s, n)
    case Restore(dump) => Apply(s, dump)
  }

  /** A run continues after errors; it ends where the source has no defined behaviour. */
  function Run(s: State, devices: seq<MappedDevice>, events: seq<Event>): (r: Option<State>)
    requires s.Valid()
    decreases |events|
  {
    if events == [] then Some(s)
    else
      var o := Step(s, devices, events[0]);
      if o.Undefined? then None
      else
        StepKeeps(s, devices, events[0]);
        Run(o.state, devices, events[1..])
  }

  lemma {:induction false} TransferLength(devices: seq<MappedDevice>, ram: seq<Byte>, at: Word, source: nat,
                                          words: nat, increment: Byte)
    ensures var t := WordCopy(devices, ram, at, source, words, increment); !t.OutOfBounds? ==> |t.ram| == |ram|
    ensures var t := BlockCopy(devices, ram, at, source, words); !t.OutOfBounds? ==> |t.ram| == |ram|
    decreases words
  {
    if words > 0 && at + 2 <= |ram| {
      var fetched := Fetch(devices, source, ram[at..at + 2]);
      if fetched.Some? {
        TransferLength(devices, Written(ram, at, fetched.value), (at + increment) % ADDRESS_RANGE,
                       source + 2, words - 1, increment);
      }
    }
  }

  lemma {:induction false} FillLength(ram: seq<Byte>, at: Word, n: nat, increment: Byte, value: Byte)
    ensures var t := Fill(ram, at, n, increment, value); t.Copied? ==> |t.ram| == |ram|
    ensures !Fill(ram, at, n, increment, value).Unmapped?
    decreases n
  {
    if n > 0 && at < |ram| {
      FillLength(ram[at := value], (at + increment) % ADDRESS_RANGE, n - 1, increment, value);
    }
  }

  /** The state keeps its shape, and the cached fields keep agreeing with the registers. */
  lemma StepKeeps(s: State, devices: seq<MappedDevice>, e: Event)
    requires s.Valid()
    ensures var o := Step(s, devices, e); !o.Undefined? ==>
              o.state.Valid() && (Agrees(s.settings, s.registers) ==> Agrees(o.state.settings, o.state.registers))
  {
    hide Set, Agrees, Fill, BlockCopy, WordCopy, Replay;
    match e {
      case ControlWrite(command) =>
        if IsRegisterCommand(command) {
          var reg := command / 0x100 - 0x80;
          if reg < REGISTER_COUNT && Agrees(s.settings, s.registers) {
            SetAgrees(s.settings, s.registers, reg, command % 0x100);
          }
        } else if s.firstHalf.Some? {
          SecondHalfKeeps(s, devices, s.firstHalf.value, command);
        }
      case DataPortWrite(data) =>
        FillLength(s.RamData(), FillStart(s.ramAddress, s.settings.autoIncrement), 2 * s.settings.dmaLength,
                   s.settings.autoIncrement, data % 0x100);
      case DataPortRead(n) =>
      case Restore(dump) =>
        if |dump| >= DUMP_SIZE {
          ReplayAgrees(s.settings, dump[..REGISTER_COUNT]);
        }
    }
  }

  lemma NoEvents(s: State, devices: seq<MappedDevice>)
    requires s.Valid()
    ensures Run(s, devices, []) == Some(s)
  {
  }

  lemma {:induction false} RunOnce(s: State, devices: seq<MappedDevice>, events: seq<Event>, e: Event)
    requires s.Valid()
    ensures var r := Run(s, devices, events);
            r.Some? ==> r.value.Valid()
    ensures var r := Run(s, devices, events);
            Run(s, devices, events + [e])
            == if r.None? || Step(r.value, devices, e).Undefined? then None
               else Some(Step(r.value, devices, e).state)
    decreases |events|
  {
    hide Step;
    if events == [] {
      assert ([] + [e])[0] == e && ([] + [e])[1..] == [];
      StepKeeps(s, devices, e);
    } else {
      StepKeeps(s, devices, events[0]);
      assert (events + [e])[0] == events[0] && (events + [e])[1..] == events[1..] + [e];
      var o := Step(s, devices, events[0]);
      if !o.Undefined? {
        RunOnce(o.state, devices, events[1..], e);
      }
    }
  }

  lemma RunTwice(s: State, devices: seq<MappedDevice>, one: Event, two: Event)
    requires s.Valid() && Step(s, devices, one).Done? && Step(s, devices, one).state.Valid()
    requires Step(Step(s, devices, one).state, devices, two).Done?
    ensures Run(s, devices, [one, two]) == Some(Step(Step(s, devices, one).state, devices, two).state)
  {
    hide Step;
    var next := Step(s, devices, one).state;
    assert [one, two] == ([] + [one]) + [two];
    NoEvents(s, devices);
    RunOnce(s, devices, [], one);
    RunOnce(s, devices, [] + [one], two);
    hide Run;
  }

  lemma SecondHalfKeeps(s: State, devices: seq<MappedDevice>, first: Word, second: Word)
    requires s.Valid()
    ensures var o := SecondHalf(s, devices, first, second); !o.Undefined? ==>
              o.state.Valid() && o.state.settings == s.settings && o.state.registers == s.registers
  {
    hide Fill, BlockCopy, WordCopy;
    var kind := SelectedRam(first, second);
    if kind.Some? {
      var selected := s.(ramAddress := CommandAddress(first, second), ramKind := kind.value);
      TransferLength(devices, selected.RamData(), selected.ramAddress, 2 * s.settings.dmaSource,
                     s.settings.dmaLength, s.settings.autoIncrement);
    }
  }

  lemma ReplayAgrees(s: Settings, r: seq<Byte>)
    requires |r| == REGISTER_COUNT
    ensures Agrees(Replay(s, r, REGISTER_COUNT), r)
    ensures GeometryWritten(Replay(s, r, REGISTER_COUNT))
  {
    forall reg | 0 <= reg < REGISTER_COUNT
      ensures CachedAt(Replay(s, r, REGISTER_COUNT), reg, r[reg])
    {
      ReplayCaches(s, r, REGISTER_COUNT, reg);
    }
    ReplayDecodes(s, r);
  }

  // ---------------------------------------------------------------- what runs keep

  ghost predicate Consistent(s: State) {
    s.Valid() && Agrees(s.settings, s.registers) && SizeDefined(s.registers[PLANE_SIZE])
  }

  lemma StepConsistent(s: State, devices: seq<MappedDevice>, e: Event)
    requires Consistent(s)
    ensures var o := Step(s, devices, e); !o.Undefined? ==> Consistent(o.state)
  {
    hide Set, Agrees, Fill, BlockCopy, WordCopy, Replay, SizeDefined;
    StepKeeps(s, devices, e);
    if e.ControlWrite? && !IsRegisterCommand(e.command) && s.firstHalf.Some? {
      SecondHalfKeeps(s, devices, s.firstHalf.value, e.command);
    }
  }

  lemma PowerOnConsistent()
    ensures Consistent(POWER_ON)
  {
    InitialAgrees();
    assert POWER_ON.registers[PLANE_SIZE] == 0;
  }

  /** In every reachable state the cached fields agree with the register file. */
  lemma {:induction false} ReachableConsistent(s: State, devices: seq<MappedDevice>, events: seq<Event>)
    requires Consistent(s)
    ensures var r := Run(s, devices, events); r.Some? ==> Consistent(r.value)
    decreases |events|
  {
    if events != [] {
      StepKeeps(s, devices, events[0]);
      StepConsistent(s, devices, events[0]);
      var o := Step(s, devices, events[0]);
      if !o.Undefined? {
        ReachableConsistent(o.state, devices, events[1..]);
      }
    }
  }

  /** The event writes the register: a register command for it, or a restore, which writes
      them all. */
  predicate Writes(e: Event, reg: nat) {
    match e
    case ControlWrite(command) => IsRegisterCommand(command) && command / 0x100 - 0x80 == reg
    case Restore(_) => true
    case _ => false
  }

  predicate Wrote(events: seq<Event>, reg: nat) {
    exists i :: 0 <= i < |events| && Writes(events[i], reg)
  }

  /** What is known to have been written, read off the cached fields. */
  predicate Touched(s: Settings, reg: nat) {
    if reg == MODE_SET_2 then s.mode2.height != 0
    else if reg == MODE_SET_4 then s.width != 0
    else s.planeSize.width != 0
  }

  predicate Geometry(reg: nat) {
    reg == MODE_SET_2 || reg == MODE_SET_4 || reg == PLANE_SIZE
  }

  lemma StepTouches(s: State, devices: seq<MappedDevice>, e: Event, reg: nat)
    requires s.Valid() && Geometry(reg)
    ensures var o := Step(s, devices, e); !o.Undefined? ==>
              (Touched(o.state.settings, reg) <==> Touched(s.settings, reg) || Writes(e, reg))
  {
    hide Fill, BlockCopy, WordCopy, Replay;
    match e {
      case ControlWrite(command) =>
        if !IsRegisterCommand(command) && s.firstHalf.Some? {
          SecondHalfKeeps(s, devices, s.firstHalf.value, command);
        }
      case DataPortWrite(data) =>
      case DataPortRead(n) =>
      case Restore(dump) =>
        if |dump| >= DUMP_SIZE {
          ReplayAgrees(s.settings, dump[..REGISTER_COUNT]);
        }
    }
  }

  lemma {:induction false} RunTouches(s: State, devices: seq<MappedDevice>, events: seq<Event>, reg: nat)
    requires s.Valid() && Geometry(reg)
    ensures var r := Run(s, devices, events); r.Some? ==>
              (Touched(r.value.settings, reg) <==> Touched(s.settings, reg) || Wrote(events, reg))
    decreases |events|
  {
    if events != [] {
      StepKeeps(s, devices, events[0]);
      StepTouches(s, devices, events[0], reg);
      var o := Step(s, devices, events[0]);
      if !o.Undefined? {
        RunTouches(o.state, devices, events[1..], reg);
        WroteFirst(events, reg);
      }
    }
  }

  lemma WroteFirst(events: seq<Event>, reg: nat)
    requires events != []
    ensures Wrote(events, reg) <==> Writes(events[0], reg) || Wrote(events[1..], reg)
  {
    if Wrote(events[1..], reg) {
      var i :| 0 <= i < |events[1..]| && Writes(events[1..][i], reg);
      assert Writes(events[i + 1], reg);
    }
    if Wrote(events, reg) && !Writes(events[0], reg) {
      var i :| 0 <= i < |events| && Writes(events[i], reg);
      assert Writes(events[1..][i - 1], reg);
    }
  }

  // ---------------------------------------------------------------- save, then restore

  /** Restoring the dump of s into any device gives it the registers and the RAMs of s, and
      cached fields decoded from those registers; the pending command word, the selected RAM,
      its address and the transfer flag are not part of a dump and stay. */
  lemma RestoreOfDump(s: State, t: State)
    requires Consistent(s) && t.Valid()
    ensures Apply(t, Dump(s)) == Done(t.(settings := Decode(s.registers), registers := s.registers,
                                         vram := s.vram, vsram := s.vsram, cram := s.cram))
  {
    var dump := Dump(s);
    var vramEnd := REGISTER_COUNT + VRAM_SIZE;
    var vsramEnd := vramEnd + VSRAM_SIZE;
    assert dump[..REGISTER_COUNT] == s.registers;
    assert dump[REGISTER_COUNT..vramEnd] == s.vram;
    assert dump[vramEnd..vsramEnd] == s.vsram;
    assert dump[vsramEnd..vsramEnd + CRAM_SIZE] == s.cram;
    ReplayDecodes(t.settings, s.registers);
    hide Decode, Replay;
  }

  /** After any run from power-on, saving and restoring into any device brings back the cached
      fields if and only if mode 2, mode 4 and the plane size were all written in the run. */
  lemma RestoresCachedFieldsExactly(devices: seq<MappedDevice>, events: seq<Event>, s: State, t: State)
    requires t.Valid() && Run(POWER_ON, devices, events) == Some(s)
    ensures Apply(t, Dump(s)).Done?
    ensures Apply(t, Dump(s)).state.settings == s.settings
            <==> Wrote(events, MODE_SET_2) && Wrote(events, MODE_SET_4) && Wrote(events, PLANE_SIZE)
  {
    hide Run, Decode, Wrote;
    PowerOnConsistent();
    ReachableConsistent(POWER_ON, devices, events);
    RestoreOfDump(s, t);
    RunTouches(POWER_ON, devices, events, MODE_SET_2);
    RunTouches(POWER_ON, devices, events, MODE_SET_4);
    RunTouches(POWER_ON, devices, events, PLANE_SIZE);
    DecodedExactly(s.settings, s.registers);
  }

  // ---------------------------------------------------------------- the two-word command

  /** The command words that select an address of a RAM for reading or writing, with or without
      a transfer. */
  function FirstWord(kind: RamKind, write: bool, address: Word): Word {
    address % 0x4000 + (if write && kind != Cram then 0x4000 else if write then 0xC000 else 0)
  }

  /** The spare bits of the second word have no effect, as long as the word is not taken for a
      register write. */
  function SecondWord(kind: RamKind, write: bool, dma: bool, address: Word, spare: Word): Word {
    address / 0x4000 + 4 * (spare / 4 % 4)
    + (if kind == Vsram then 0x10 else if kind == Cram && !write then 0x20 else 0)
    + 0x40 * (spare / 0x40 % 2) + (if dma then 0x80 else 0) + 0x100 * (spare / 0x100)
  }

  /** Sending the two words to an idle port selects that RAM and that address, drops the
      pending word, and arms a transfer exactly when asked to and allowed to. */
  lemma CommandSelects(s: State, devices: seq<MappedDevice>, kind: RamKind, write: bool, dma: bool, address: Word,
                       spare: Word)
    requires s.Valid() && s.firstHalf.None? && !IsRegisterCommand(spare)
    requires dma && s.settings.mode2.allowDma ==> s.settings.dmaType == VramFill
    ensures var first := Control(s, devices, FirstWord(kind, write, address));
            && first.Done? && first.state.Valid()
            && Control(first.state, devices, SecondWord(kind, write, dma, address, spare))
               == Done(s.(ramKind := kind, ramAddress := address, useDma := dma && s.settings.mode2.allowDma))
  {
    FirstWordBits(kind, write, address);
    SecondWordBits(kind, write, dma, address, spare);
    hide FirstWord, SecondWord;
  }

  /** A pair of words selects a RAM if and only if its code bits are those of a read or a write
      of that RAM. */
  lemma SelectsExactly(first: Word, second: Word, kind: RamKind)
    ensures SelectedRam(first, second) == Some(kind)
            <==> exists write ::
                   && first / 0x4000 == FirstWord(kind, write, 0) / 0x4000
                   && second / 0x10 % 4 == SecondWord(kind, write, false, 0, 0) / 0x10
  {
    CodeBits(first, second);
    assert FirstWord(kind, true, 0) / 0x4000 == if kind == Cram then 3 else 1;
    assert FirstWord(kind, false, 0) / 0x4000 == 0;
    assert SecondWord(kind, true, false, 0, 0) / 0x10 == if kind == Vsram then 1 else 0;
    assert SecondWord(kind, false, false, 0, 0) / 0x10 == if kind == Vsram then 1 else if kind == Cram then 2 else 0;
    hide FirstWord, SecondWord;
  }

  lemma CodeBits(first: Word, second: Word)
    ensures first / 0x4000 == 2 * (first / 0x8000 % 2) + first / 0x4000 % 2
    ensures second / 0x10 % 4 == 2 * (second / 0x20 % 2) + second / 0x10 % 2
  {
    DivTwice(first, 0x4000, 2);
    DivTwice(second, 0x10, 2);
    TwoBits(first / 0x4000);
    TwoBits(second / 0x10);
  }

  lemma TwoBits(n: nat)
    ensures n % 4 == 2 * (n / 2 % 2) + n % 2
  {
  }

  lemma FirstWordBits(kind: RamKind, write: bool, address: Word)
    ensures var w := FirstWord(kind, write, address);
            && !IsRegisterCommand(w) && w % 0x4000 == address % 0x4000
            && w / 0x4000 % 2 == B2I(write) && w / 0x8000 % 2 == B2I(write && kind == Cram)
  {
    var q := if write && kind != Cram then 1 else if write then 3 else 0;
    DivUnique(FirstWord(kind, write, address), 0x4000, q, address % 0x4000);
  }

  lemma SecondWordBits(kind: RamKind, write: bool, dma: bool, address: Word, spare: Word)
    requires !IsRegisterCommand(spare)
    ensures var w := SecondWord(kind, write, dma, address, spare);
            && !IsRegisterCommand(w) && w % 4 == address / 0x4000
            && w / 0x10 % 2 == B2I(kind == Vsram) && w / 0x20 % 2 == B2I(kind == Cram && !write)
            && w / 0x80 % 2 == B2I(dma)
  {
    DivTwice(spare, 0x100, 0x20);
    CodeWord(address / 0x4000, spare / 4 % 4, B2I(kind == Vsram), B2I(kind == Cram && !write), spare / 0x40 % 2,
             B2I(dma), spare / 0x100);
  }

  lemma CodeWord(low: nat, a: nat, v: nat, c: nat, b: nat, d: nat, top: nat)
    requires low < 4 && a < 4 && v < 2 && c < 2 && b < 2 && d < 2
    ensures var w := low + 4 * a + 0x10 * v + 0x20 * c + 0x40 * b + 0x80 * d + 0x100 * top;
            && w % 4 == low && w / 0x10 % 2 == v && w / 0x20 % 2 == c && w / 0x80 % 2 == d && w / 0x2000 == top / 0x20
  {
    var w := low + 4 * a + 0x10 * v + 0x20 * c + 0x40 * b + 0x80 * d + 0x100 * top;
    DivUnique(w, 4, a + 4 * v + 8 * c + 0x10 * b + 0x20 * d + 0x40 * top, low);
    DigitOf(w, 0x10, low + 4 * a, v, c + 2 * b + 4 * d + 8 * top);
    DigitOf(w, 0x20, low + 4 * a + 0x10 * v, c, b + 2 * d + 4 * top);
    DigitOf(w, 0x80, low + 4 * a + 0x10 * v + 0x20 * c + 0x40 * b, d, top);
    DivUnique(w, 0x100, top, low + 4 * a + 0x10 * v + 0x20 * c + 0x40 * b + 0x80 * d);
    DivTwice(w, 0x100, 0x20);
  }

  lemma DigitOf(w: nat, weight: nat, below: nat, digit: nat, above: nat)
    requires below < weight && digit < 2 && w == below + weight * (digit + 2 * above)
    ensures w / weight % 2 == digit
  {
    DivUnique(w, weight, digit + 2 * above, below);
  }

  // ---------------------------------------------------------------- the device

  class VdpDevice {
    var settings: Settings
    var firstHalf: Option<Word>
    var useDma: bool
    var ramKind: RamKind
    var ramAddress: Word
    const registers: array<Byte>
    const vram: array<Byte>
    const vsram: array<Byte>
    const cram: array<Byte>
    const bus: BusDevice

    ghost predicate Valid()
      reads this
    {
      && registers.Length == REGISTER_COUNT && vram.Length == VRAM_SIZE
      && vsram.Length == VSRAM_SIZE && cram.Length == CRAM_SIZE
    }

    ghost function View(): (s: State)
      requires Valid()
      reads this, registers, vram, vsram, cram
      ensures s.Valid()
    {
      State(settings, registers[..], vram[..], vsram[..], cram[..], firstHalf, useDma, ramKind, ramAddress)
    }

    constructor (bus: BusDevice)
      ensures Valid() && View() == POWER_ON && this.bus == bus
      ensures fresh(registers) && fresh(vram) && fresh(vsram) && fresh(cram)
    {
      settings, firstHalf, useDma, ramKind, ramAddress := INITIAL, None, false, Vram, 0;
      registers := new Byte[REGISTER_COUNT](_ => 0);
      vram := new Byte[VRAM_SIZE](_ => 0);
      vsram := new Byte[VSRAM_SIZE](_ => 0);
      cram := new Byte[CRAM_SIZE](_ => 0);
      this.bus := bus;
    }

    function RamArray(): (a: array<Byte>)
      requires Valid()
      reads this
      ensures a == (match ramKind case Vram => vram case Vsram => vsram case Cram => cram)
    {
      match ramKind
      case Vram => vram
      case Vsram => vsram
      case Cram => cram
    }

    method ProcessRegister(command: Word) returns (r: Status)
      requires Valid() && IsRegisterCommand(command)
      modifies `settings, registers
      ensures Valid() && Reports(WriteRegister(old(View()), command), r)
    {
      var reg := command / 0x100 - 0x80;
      var value := command % 0x100;
      if reg >= REGISTER_COUNT {
        return Error;
      }
      if reg == PLANE_SIZE && !SizeDefined(value) {
        return NoBehaviour;
      }
      settings := Set(settings, reg, value);
      registers[reg] := value;
      r := Ok;
    }

    /** The outcome and the status and state of the device correspond. */
    ghost predicate Reports(o: Outcome, r: Status)
      requires Valid()
      reads this, registers, vram, vsram, cram
    {
      match o
      case Done(s) => r == Ok && View() == s
      case Failed(s) => r == Error && View() == s
      case Undefined => r == NoBehaviour
    }

    method TransferFromBus() returns (r: Status)
      requires Valid()
      modifies this`ramAddress, RamArray()
      ensures Valid()
      ensures match Transferred(old(View()), bus.mappedDevices)
              case Copied(ram, address) => r == Ok && View() == old(View()).SetRam(ram).(ramAddress := address)
              case Unmapped(ram, address) => r == Error && View() == old(View()).SetRam(ram).(ramAddress := address)
              case OutOfBounds => r == NoBehaviour
    {
      hide BlockCopy, WordCopy;
      var ram := RamArray();
      ghost var before := View();
      var source := 2 * settings.dmaSource;
      if settings.autoIncrement == 2 {
        r, ramAddress := TransferBlock(bus, ram, ramAddress, source, settings.dmaLength);
      } else {
        r, ramAddress := TransferWords(bus, ram, ramAddress, source, settings.dmaLength, settings.autoIncrement);
      }
      assert View() == before.SetRam(ram[..]).(ramAddress := ramAddress);
    }

    method ProcessControl(command: Word) returns (r: Status)
      requires Valid()
      modifies this, registers, vram, vsram, cram
      ensures Valid() && Reports(Control(old(View()), bus.mappedDevices, command), r)
    {
      hide BlockCopy, WordCopy, Set;
      if IsRegisterCommand(command) {
        r := ProcessRegister(command);
        return;
      }
      if firstHalf.None? {
        firstHalf := Some(command);
        return Ok;
      }
      var first := firstHalf.value;
      ramAddress := CommandAddress(first, command);
      useDma := command / 0x80 % 2 == 1 && settings.mode2.allowDma;
      var kind := SelectedRam(first, command);
      if kind.None? {
        return Error;
      }
      ramKind := kind.value;
      if useDma && settings.dmaType == VramCopy {
        return Error;
      }
      if useDma && settings.dmaType == MemoryToVram {
        r := TransferFromBus();
        if r != Ok {
          return;
        }
        useDma := false;
      }
      firstHalf := None;
      r := Ok;
    }

    method FillArmed(value: Byte) returns (r: Status)
      requires Valid()
      modifies this`ramAddress, this`useDma, RamArray()
      ensures Valid()
      ensures match Fill(old(View()).RamData(), FillStart(old(ramAddress), settings.autoIncrement),
                         2 * settings.dmaLength, settings.autoIncrement, value)
              case Copied(ram, address) =>
                r == Ok && View() == old(View()).SetRam(ram).(ramAddress := address, useDma := false)
              case _ => r != Ok
    {
      hide Fill, FillStart;
      var ram := RamArray();
      ghost var before := View();
      r, ramAddress := TransferFill(ram, ramAddress, 2 * settings.dmaLength, settings.autoIncrement, value);
      assert View() == before.SetRam(ram[..]).(ramAddress := ramAddress);
      if r == Ok {
        useDma := false;
      }
    }

    /** A plain write: two bytes, unless the second one falls outside the RAM. */
    method StoreWord(data: Word)
      requires Valid()
      modifies RamArray()
      ensures Valid()
      ensures var s := old(View());
              View() == if ramAddress + 1 < |s.RamData()|
                        then s.SetRam(Written(s.RamData(), ramAddress, WordBytes(data)))
                        else s
    {
      var ram := RamArray();
      if ramAddress + 1 < ram.Length {
        ghost var before := View();
        ram[ramAddress] := data / 0x100;
        ram[ramAddress + 1] := data % 0x100;
        assert ram[..] == Written(before.RamData(), ramAddress, WordBytes(data));
      }
    }

    method ProcessData(data: Word) returns (r: Status)
      requires Valid()
      modifies this, vram, vsram, cram
      ensures Valid() && Reports(DataWrite(old(View()), data), r)
    {
      hide Fill, FillStart, Written;
      if useDma && settings.dmaType != VramFill {
        return NoBehaviour;
      }
      if useDma {
        r := FillArmed(data % 0x100);
        if r != Ok {
          r := NoBehaviour;
        }
        return;
      }
      StoreWord(data);
      ramAddress := (ramAddress + settings.autoIncrement) % ADDRESS_RANGE;
      r := Ok;
    }

    /** Read one or two bytes through the data port. */
    method ReadData(n: nat) returns (r: Status, bytes: seq<Byte>)
      requires Valid() && 1 <= n <= 2
      modifies `ramAddress
      ensures Valid() && Reports(DataRead(old(View()), n), r)
      ensures r == Ok ==> bytes == old(View()).RamData()[old(ramAddress)..old(ramAddress) + n]
    {
      var ram := RamArray();
      if ramAddress + n > ram.Length {
        return NoBehaviour, [];
      }
      bytes := ram[ramAddress..ramAddress + n];
      ramAddress := (ramAddress + n) % ADDRESS_RANGE;
      r := Ok;
    }

    method DumpState() returns (dump: seq<Byte>)
      requires Valid()
      ensures dump == Dump(View())
    {
      dump := registers[..] + vram[..] + vsram[..] + cram[..];
    }

    /** Copy a part of a dump over a RAM. */
    method CopyOver(a: array<Byte>, state: seq<Byte>)
      requires a.Length <= |state|
      modifies a
      ensures a[..] == state[..a.Length]
    {
      for i := 0 to a.Length
        invariant a[..i] == state[..i]
      {
        a[i] := state[i];
      }
    }

    method ApplyState(dump: seq<Byte>) returns (r: Status)
      requires Valid()
      modifies this, registers, vram, vsram, cram
      ensures Valid() && Reports(Apply(old(View()), dump), r)
    {
      hide Set;
      if |dump| < DUMP_SIZE || !SizeDefined(dump[PLANE_SIZE]) {
        return NoBehaviour;
      }
      ghost var file := dump[..REGISTER_COUNT];
      for i := 0 to REGISTER_COUNT
        invariant Valid()
        invariant View() == old(View()).(settings := Replay(old(settings), file, i), registers := registers[..])
      {
        var status := ProcessRegister((0x80 + i) * 0x100 + dump[i]);
      }
      var vramEnd := REGISTER_COUNT + VRAM_SIZE;
      var vsramEnd := vramEnd + VSRAM_SIZE;
      CopyOver(registers, dump);
      CopyOver(vram, dump[REGISTER_COUNT..]);
      CopyOver(vsram, dump[vramEnd..]);
      CopyOver(cram, dump[vsramEnd..]);
      r := Ok;
    }
  }
}
