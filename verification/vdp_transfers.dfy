/** What arrives in the memories of the video display processor: words written to the data port,
    a transfer from the bus and a fill, from the command words on
    (src/sega/memory/vdp_device.cpp:388-505). */
module VdpTransfers {
  import opened Words
  import opened Ram
  import opened Bus
  import opened Dma
  import opened VdpRegisters
  import opened Vdp

  function RamOf(s: State, kind: RamKind): seq<Byte> {
    match kind
    case Vram => s.vram
    case Vsram => s.vsram
    case Cram => s.cram
  }

  /** Only this RAM and the address have changed, and no transfer is armed. */
  ghost predicate Arrived(s: State, s': State, kind: RamKind, data: seq<Byte>, address: Word) {
    && s'.ramKind == kind && s'.ramAddress == address && !s'.useDma && s'.firstHalf.None?
    && RamOf(s', kind) == data
    && (forall other :: other != kind ==> RamOf(s', other) == RamOf(s, other))
    && s'.settings == s.settings && s'.registers == s.registers
  }

  // ---------------------------------------------------------------- the data port

  function BigEndian(words: seq<Word>): (b: seq<Byte>)
    ensures |b| == 2 * |words|
  {
    if words == [] then [] else BigEndian(words[..|words| - 1]) + WordBytes(words[|words| - 1])
  }

  function Writes(words: seq<Word>): (events: seq<Event>)
    ensures |events| == |words|
  {
    seq(|words|, i requires 0 <= i < |words| => DataPortWrite(words[i]))
  }

  lemma WordArrives(s: State, devices: seq<MappedDevice>, word: Word)
    requires s.Valid() && !s.useDma && s.ramAddress + 2 <= |RamOf(s, s.ramKind)|
    ensures Step(s, devices, DataPortWrite(word))
            == Done(s.SetRam(Written(RamOf(s, s.ramKind), s.ramAddress, WordBytes(word)))
                     .(ramAddress := (s.ramAddress + s.settings.autoIncrement) % 0x1_0000))
  {
    hide Written, WordBytes;
  }

  /** What a RAM and the address are after some words. */
  function After(s: State, words: seq<Word>): State
    requires s.ramAddress + 2 * |words| <= |RamOf(s, s.ramKind)|
  {
    s.SetRam(Written(RamOf(s, s.ramKind), s.ramAddress, BigEndian(words)))
     .(ramAddress := (s.ramAddress + 2 * |words|) % 0x1_0000)
  }

  /** Words written with an increment of two stand one behind the other, high bytes first. */
  lemma {:induction false} WordsArrive(s: State, devices: seq<MappedDevice>, words: seq<Word>)
    requires s.Valid() && !s.useDma && s.settings.autoIncrement == 2
    requires s.ramAddress + 2 * |words| <= |RamOf(s, s.ramKind)|
    ensures Run(s, devices, Writes(words)) == Some(After(s, words))
    decreases |words|
  {
    hide Run, After;
    if words == [] {
      NoEvents(s, devices);
      assert Writes(words) == [];
      NothingAfter(s);
    } else {
      var n := |words| - 1;
      var front := words[..n];
      WordsArrive(s, devices, front);
      assert Writes(words) == Writes(front) + [DataPortWrite(words[n])];
      RunOnce(s, devices, Writes(front), DataPortWrite(words[n]));
      hide Writes, Step;
      AfterOneMore(s, devices, words);
    }
  }

  lemma NothingAfter(s: State)
    requires s.Valid() && s.ramAddress <= |RamOf(s, s.ramKind)|
    ensures After(s, []) == s
  {
    assert Written(RamOf(s, s.ramKind), s.ramAddress, []) == RamOf(s, s.ramKind);
  }

  lemma AfterOneMore(s: State, devices: seq<MappedDevice>, words: seq<Word>)
    requires s.Valid() && !s.useDma && s.settings.autoIncrement == 2 && words != []
    requires s.ramAddress + 2 * |words| <= |RamOf(s, s.ramKind)|
    requires After(s, words[..|words| - 1]).Valid()
    ensures Step(After(s, words[..|words| - 1]), devices, DataPortWrite(words[|words| - 1])) == Done(After(s, words))
  {
    var n := |words| - 1;
    hide Step, Written, WordBytes;
    WordArrives(After(s, words[..n]), devices, words[n]);
    WrittenOn(RamOf(s, s.ramKind), s.ramAddress, BigEndian(words[..n]), WordBytes(words[n]));
  }

  lemma WrittenOn(ram: seq<Byte>, at: nat, one: seq<Byte>, other: seq<Byte>)
    requires at + |one| + |other| <= |ram|
    ensures Written(Written(ram, at, one), at + |one|, other) == Written(ram, at, one + other)
  {
  }

  // ---------------------------------------------------------------- a transfer from the bus

  lemma SecondHalfTransfers(s: State, devices: seq<MappedDevice>, first: Word, second: Word, kind: RamKind,
                            address: Word, data: seq<Byte>, end: Word)
    requires s.Valid() && SelectedRam(first, second) == Some(kind) && CommandAddress(first, second) == address
    requires second / 0x80 % 2 == 1 && s.settings.mode2.allowDma && s.settings.dmaType == MemoryToVram
    requires s.settings.autoIncrement == 2
    requires BlockCopy(devices, RamOf(s, kind), address, 2 * s.settings.dmaSource, s.settings.dmaLength)
             == Copied(data, end)
    ensures SecondHalf(s, devices, first, second).Done?
    ensures Arrived(s, SecondHalf(s, devices, first, second).state, kind, data, end)
  {
    hide SelectedRam, CommandAddress, BlockCopy, WordCopy;
  }

  lemma WordsSelect(kind: RamKind, dma: bool, address: Word, spare: Word)
    requires !IsRegisterCommand(spare)
    ensures var one, two := FirstWord(kind, true, address), SecondWord(kind, true, dma, address, spare);
            && !IsRegisterCommand(one) && !IsRegisterCommand(two) && two / 0x80 % 2 == B2I(dma)
            && SelectedRam(one, two) == Some(kind) && CommandAddress(one, two) == address
  {
    FirstWordBits(kind, true, address);
    SecondWordBits(kind, true, dma, address, spare);
    hide FirstWord, SecondWord;
  }

  /** The two words of a command with a transfer bring the bytes of a RAM on the bus to the
      selected RAM: twice as many bytes as the length register counts, from twice the source
      register. */
  lemma TransferArrives(s: State, devices: seq<MappedDevice>, kind: RamKind, address: Word, spare: Word, base: Long,
                        data: seq<Byte>)
    requires s.Valid() && s.firstHalf.None? && !IsRegisterCommand(spare)
    requires s.settings.mode2.allowDma && s.settings.dmaType == MemoryToVram && s.settings.autoIncrement == 2
    requires var words, source := s.settings.dmaLength, 2 * s.settings.dmaSource;
             && words > 0 && address + 2 * words <= |RamOf(s, kind)|
             && base <= source && source + 2 * words <= base + |data|
             && InOneDevice(devices, RamDevice(base, data), source, words)
    ensures var first := Control(s, devices, FirstWord(kind, true, address));
            && first.Done? && first.state.Valid()
            && var second := Control(first.state, devices, SecondWord(kind, true, true, address, spare));
               var from := 2 * s.settings.dmaSource - base;
               var bytes := data[from..from + 2 * s.settings.dmaLength];
               && second.Done?
               && Arrived(s, second.state, kind, Written(RamOf(s, kind), address, bytes),
                          (address + 2 * s.settings.dmaLength) % 0x1_0000)
  {
    hide FirstWord, SecondWord, BlockCopy, WordCopy, InOneDevice, Written, SecondHalf, IsRegisterCommand, SelectedRam;
    hide CommandAddress, WriteRegister;
    WordsSelect(kind, true, address, spare);
    var words, source := s.settings.dmaLength, 2 * s.settings.dmaSource;
    CopiesTheSource(devices, base, data, RamOf(s, kind), address, source, words);
    var one, two := FirstWord(kind, true, address), SecondWord(kind, true, true, address, spare);
    SecondHalfTransfers(s.(firstHalf := Some(one)), devices, one, two, kind, address,
                        Written(RamOf(s, kind), address, data[source - base..source - base + 2 * words]),
                        (address + 2 * words) % 0x1_0000);
  }

  // ---------------------------------------------------------------- a fill

  /** After a command that arms a fill of the video RAM, one word on the data port gives its low
      byte to twice as many addresses as the length register counts, each the increment behind
      the one before, and to no others. */
  lemma FillArrives(s: State, devices: seq<MappedDevice>, address: Word, spare: Word, word: Word)
    requires s.Valid() && s.firstHalf.None? && !IsRegisterCommand(spare)
    requires s.settings.mode2.allowDma && s.settings.dmaType == VramFill
    ensures var armed := Run(s, devices, [ControlWrite(FirstWord(Vram, true, address)),
                                          ControlWrite(SecondWord(Vram, true, true, address, spare))]);
            && armed.Some? && armed.value.Valid()
            && var filled := DataWrite(armed.value, word);
               var increment, n := s.settings.autoIncrement, 2 * s.settings.dmaLength;
               var start := FillStart(address, increment);
               && filled.Done? && filled.state.Valid()
               && Arrived(s, filled.state, Vram, filled.state.vram, FillAddress(start, increment, n))
               && forall a :: 0 <= a < 0x1_0000 ==>
                    filled.state.vram[a] == if Covered(start, n, increment, a) then word % 0x100 else s.vram[a]
  {
    var one, two := FirstWord(Vram, true, address), SecondWord(Vram, true, true, address, spare);
    CommandSelects(s, devices, Vram, true, true, address, spare);
    RunTwice(s, devices, ControlWrite(one), ControlWrite(two));
    hide FirstWord, SecondWord, Run, FillStart, Covered, FillAddress, Control;
    FillCoversExactly(s.vram, FillStart(address, s.settings.autoIncrement), 2 * s.settings.dmaLength,
                      s.settings.autoIncrement, word % 0x100);
  }
}
