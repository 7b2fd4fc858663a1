/** Transfers of the video processor: the block and the word-by-word copy from the bus, and the
    fill (src/sega/memory/vdp_device.cpp:436-496). */
module Dma {
  import opened Words
  import opened Ram
  import opened Bus

  const ADDRESS_RANGE := 0x1_0000

  /** A finished transfer, one stopped by an unmapped source, or one that leaves the RAM, which
      the source does not check. */
  datatype Transfer =
    | Copied(ram: seq<Byte>, address: Word)
    | Unmapped(ram: seq<Byte>, address: Word)
    | OutOfBounds

  datatype Status = Ok | Error | NoBehaviour

  /** What a transfer method reports and leaves, against its specification. */
  predicate Reported(t: Transfer, r: Status, ram: seq<Byte>, address: Word) {
    match t
    case Copied(ram', address') => r == Ok && ram == ram' && address == address'
    case Unmapped(ram', address') => r == Error && ram == ram' && address == address'
    case OutOfBounds => r == NoBehaviour
  }

  function Min(a: int, b: int): int {
    if a < b then a else b
  }

  /** The fast path, used for an increment of two. */
  function BlockCopy(devices: seq<MappedDevice>, ram: seq<Byte>, at: Word, source: nat, words: nat): Transfer {
    if at > |ram| then OutOfBounds
    else
      var n := Min(2 * words, |ram| - at);
      match Fetch(devices, source, ram[at..at + n])
      case None => Unmapped(ram, at)
      case Some(bytes) => Copied(Written(ram, at, bytes), (at + 2 * words) % ADDRESS_RANGE)
  }

  /** The slow path. */
  function WordCopy(devices: seq<MappedDevice>, ram: seq<Byte>, at: Word, source: nat, words: nat,
                    increment: Byte): Transfer
    decreases words
  {
    if words == 0 then Copied(ram, at)
    else if at + 2 > |ram| then OutOfBounds
    else
      match Fetch(devices, source, ram[at..at + 2])
      case None => Unmapped(ram, at)
      case Some(bytes) =>
        WordCopy(devices, Written(ram, at, bytes), (at + increment) % ADDRESS_RANGE, source + 2, words - 1, increment)
  }

  /** The source lies in one device, below the end of the 24-bit bus. */
  ghost predicate InOneDevice(devices: seq<MappedDevice>, device: Device, source: nat, words: nat) {
    && source + 2 * words <= ADDRESS_MODULUS
    && FirstMatch(devices, source % ADDRESS_MODULUS) == Some(device)
    && forall k :: 0 <= k < words ==> FirstMatch(devices, source + 2 * k) == Some(device)
  }

  lemma OneWord(devices: seq<MappedDevice>, device: Device, ram: seq<Byte>, at: nat, source: nat, words: nat)
    requires words > 0 && at + 2 <= |ram| && InOneDevice(devices, device, source, words)
    ensures Fetch(devices, source, ram[at..at + 2]) == Some(Filled(device, source, ram[at..at + 2]))
    ensures words > 1 ==> InOneDevice(devices, device, source + 2, words - 1)
  {
    assert FirstMatch(devices, source + 2 * 0) == Some(device);
    forall k | 0 <= k < words - 1
      ensures FirstMatch(devices, source + 2 + 2 * k) == Some(device)
    {
      assert FirstMatch(devices, source + 2 * (k + 1)) == Some(device);
    }
    if words > 1 {
      assert FirstMatch(devices, source + 2 + 2 * 0) == Some(device);
    }
  }

  /** Writing the first word and then the rest is writing the whole block. */
  lemma SplitWrite(device: Device, ram: seq<Byte>, at: nat, source: nat, n: nat)
    requires n >= 2 && at + n <= |ram|
    ensures var first := Written(ram, at, Filled(device, source, ram[at..at + 2]));
            Written(first, at + 2, Filled(device, source + 2, first[at + 2..at + n]))
            == Written(ram, at, Filled(device, source, ram[at..at + n]))
  {
    var first := Written(ram, at, Filled(device, source, ram[at..at + 2]));
    var rest := Filled(device, source + 2, first[at + 2..at + n]);
    FilledSplits(device, ram, at, source, n);
    assert first[at + 2..at + n] == ram[at + 2..at + n];
    hide Filled;
  }

  lemma FilledSplits(device: Device, ram: seq<Byte>, at: nat, source: nat, n: nat)
    requires n >= 2 && at + n <= |ram|
    ensures Filled(device, source, ram[at..at + 2]) + Filled(device, source + 2, ram[at + 2..at + n])
            == Filled(device, source, ram[at..at + n])
  {
    hide Device.ByteOr;
    var head, rest := Filled(device, source, ram[at..at + 2]), Filled(device, source + 2, ram[at + 2..at + n]);
    var whole := Filled(device, source, ram[at..at + n]);
    forall k | 0 <= k < n
      ensures (head + rest)[k] == whole[k]
    {
      if k >= 2 {
        assert rest[k - 2] == device.ByteOr(source + 2 + (k - 2), ram[at + 2..at + n][k - 2]);
        assert ram[at + 2..at + n][k - 2] == ram[at..at + n][k];
      }
    }
  }

  lemma {:induction false} WordCopyIsBlock(devices: seq<MappedDevice>, device: Device, ram: seq<Byte>, at: Word,
                                           source: nat, words: nat)
    requires words > 0 && |ram| <= ADDRESS_RANGE && at + 2 * words <= |ram|
    requires InOneDevice(devices, device, source, words)
    ensures WordCopy(devices, ram, at, source, words, 2)
            == Copied(Written(ram, at, Filled(device, source, ram[at..at + 2 * words])),
                      (at + 2 * words) % ADDRESS_RANGE)
    decreases words
  {
    hide Filled, Written, Fetch, InOneDevice, WordCopy;
    OneWord(devices, device, ram, at, source, words);
    var first := Written(ram, at, Filled(device, source, ram[at..at + 2]));
    FirstWordCopied(devices, device, ram, at, source, words);
    if words == 1 {
      NothingCopied(devices, device, first, (at + 2) % ADDRESS_RANGE, source + 2);
    } else {
      SplitWrite(device, ram, at, source, 2 * words);
      WordCopyIsBlock(devices, device, first, at + 2, source + 2, words - 1);
    }
  }

  lemma FirstWordCopied(devices: seq<MappedDevice>, device: Device, ram: seq<Byte>, at: Word, source: nat, words: nat)
    requires words > 0 && |ram| <= ADDRESS_RANGE && at + 2 <= |ram|
    requires Fetch(devices, source, ram[at..at + 2]) == Some(Filled(device, source, ram[at..at + 2]))
    ensures WordCopy(devices, ram, at, source, words, 2)
            == WordCopy(devices, Written(ram, at, Filled(device, source, ram[at..at + 2])), (at + 2) % ADDRESS_RANGE,
                        source + 2, words - 1, 2)
  {
    hide Filled, Written, Fetch;
  }

  /** Whenever destination and source each stay in one memory, the block copy leaves the same
      RAM and the same address as copying word by word. */
  lemma BlockCopyIsWordCopy(devices: seq<MappedDevice>, device: Device, ram: seq<Byte>, at: Word, source: nat,
                            words: nat)
    requires |ram| <= ADDRESS_RANGE && at + 2 * words <= |ram|
    requires InOneDevice(devices, device, source, words)
    ensures BlockCopy(devices, ram, at, source, words) == WordCopy(devices, ram, at, source, words, 2)
    ensures BlockCopy(devices, ram, at, source, words).Copied?
  {
    hide Filled, WordCopy, Written;
    BlockFetched(devices, device, ram, at, source, words);
    if words == 0 {
      NothingCopied(devices, device, ram, at, source);
    } else {
      WordCopyIsBlock(devices, device, ram, at, source, words);
    }
  }

  /** One mapping that contains the source is enough. */
  lemma OneMappingIsEnough(m: MappedDevice, source: nat, words: nat)
    requires words > 0 && m.begin <= source && source + 2 * words - 1 <= m.end < ADDRESS_MODULUS
    ensures InOneDevice([m], m.device, source, words)
  {
  }

  /** A transfer from a RAM leaves the bytes of the RAM, on either path. */
  lemma CopiesTheSource(devices: seq<MappedDevice>, base: Long, data: seq<Byte>, ram: seq<Byte>, at: Word,
                        source: nat, words: nat)
    requires |ram| <= ADDRESS_RANGE && at + 2 * words <= |ram| && words > 0
    requires InOneDevice(devices, RamDevice(base, data), source, words)
    requires base <= source && source + 2 * words <= base + |data|
    ensures var copied := Copied(Written(ram, at, data[source - base..source - base + 2 * words]),
                                 (at + 2 * words) % ADDRESS_RANGE);
            BlockCopy(devices, ram, at, source, words) == copied == WordCopy(devices, ram, at, source, words, 2)
  {
    BlockCopyIsWordCopy(devices, RamDevice(base, data), ram, at, source, words);
    BlockFetched(devices, RamDevice(base, data), ram, at, source, words);
    hide WordCopy, BlockCopy, InOneDevice, Written, Filled;
    FilledFromRam(base, data, source, ram[at..at + 2 * words]);
  }

  lemma BlockFetched(devices: seq<MappedDevice>, device: Device, ram: seq<Byte>, at: Word, source: nat, words: nat)
    requires |ram| <= ADDRESS_RANGE && at + 2 * words <= |ram|
    requires InOneDevice(devices, device, source, words)
    ensures var masked := source % ADDRESS_MODULUS;
            BlockCopy(devices, ram, at, source, words)
            == Copied(Written(ram, at, Filled(device, masked, ram[at..at + 2 * words])),
                      (at + 2 * words) % ADDRESS_RANGE)
    ensures words > 0 ==> source % ADDRESS_MODULUS == source
  {
    hide Filled, Written, FirstMatch;
  }

  lemma NothingCopied(devices: seq<MappedDevice>, device: Device, ram: seq<Byte>, at: Word, source: nat)
    ensures at <= |ram| ==> Written(ram, at, Filled(device, source % ADDRESS_MODULUS, ram[at..at])) == ram
    ensures WordCopy(devices, ram, at, source, 0, 2) == Copied(ram, at)
  {
  }

  // ---------------------------------------------------------------- past the end of a RAM

  /** A copy that does not wrap around leaves the RAM when it is longer than what is left. */
  lemma {:induction false} WordCopyRunsOut(devices: seq<MappedDevice>, device: Device, ram: seq<Byte>, at: Word,
                                           source: nat, words: nat)
    requires |ram| < ADDRESS_RANGE || (|ram| == ADDRESS_RANGE && at % 2 == 1)
    requires words > 0 && at + 2 * words > |ram| && InOneDevice(devices, device, source, words)
    ensures WordCopy(devices, ram, at, source, words, 2).OutOfBounds?
    decreases words
  {
    hide Filled, FirstMatch, Fetch, InOneDevice;
    if at + 2 <= |ram| {
      OneWord(devices, device, ram, at, source, words);
      assert words > 1;
      WordCopyRunsOut(devices, device, Written(ram, at, Filled(device, source, ram[at..at + 2])), at + 2,
                      source + 2, words - 1);
    }
  }

  /** The byte that n copied bytes leave at an address of the video RAM, when the first one goes
      to `at` and the address wraps around: the last one sent there, or what was there.  The
      length register has sixteen bits, so no address is sent more than two bytes. */
  function CopiedByte(device: Device, ram: seq<Byte>, at: Word, source: nat, n: nat, a: Word): Byte
    requires |ram| == ADDRESS_RANGE
  {
    var k := (a - at) % ADDRESS_RANGE;
    var once := if k < n then device.ByteOr(source + k, ram[a]) else ram[a];
    if k + ADDRESS_RANGE < n then device.ByteOr(source + k + ADDRESS_RANGE, once) else once
  }

  lemma CopiedStep(device: Device, ram: seq<Byte>, at: Word, source: nat, n: nat, a: Word)
    requires |ram| == ADDRESS_RANGE && at % 2 == 0 && 2 <= n < 2 * ADDRESS_RANGE
    ensures at + 2 <= ADDRESS_RANGE
    ensures var first := Written(ram, at, Filled(device, source, ram[at..at + 2]));
            CopiedByte(device, first, (at + 2) % ADDRESS_RANGE, source + 2, n - 2, a)
            == CopiedByte(device, ram, at, source, n, a)
  {
    var word := Filled(device, source, ram[at..at + 2]);
    var first := Written(ram, at, word);
    var k := (a - at) % ADDRESS_RANGE;
    OffsetFromNext(at, a);
    assert first[a] == if k < 2 then device.ByteOr(source + k, ram[a]) else ram[a] by {
      assert k < 2 ==> a == at + k;
    }
    hide Written, Filled, Device.ByteOr;
  }

  /** How far an address lies behind the next word. */
  lemma OffsetFromNext(at: Word, a: Word)
    ensures var k := (a - at) % ADDRESS_RANGE;
            (a - (at + 2) % ADDRESS_RANGE) % ADDRESS_RANGE == if k < 2 then k + ADDRESS_RANGE - 2 else k - 2
  {
  }

  /** From an even address the word-by-word copy into the video RAM wraps around to address
      zero, as often as it has to. */
  lemma {:induction false} WordCopyWraps(devices: seq<MappedDevice>, device: Device, ram: seq<Byte>, at: Word,
                                         source: nat, words: nat)
    requires |ram| == ADDRESS_RANGE && at % 2 == 0 && words < ADDRESS_RANGE
    requires InOneDevice(devices, device, source, words)
    ensures var t := WordCopy(devices, ram, at, source, words, 2);
            && t.Copied? && |t.ram| == ADDRESS_RANGE && t.address == (at + 2 * words) % ADDRESS_RANGE
            && forall a: Word :: t.ram[a] == CopiedByte(device, ram, at, source, 2 * words, a)
    decreases words
  {
    hide Filled, FirstMatch, Fetch, InOneDevice, CopiedByte, Written;
    if words == 0 {
      CopiedNothing(device, ram, at, source);
    } else {
      OneWord(devices, device, ram, at, source, words);
      var first := Written(ram, at, Filled(device, source, ram[at..at + 2]));
      var next := (at + 2) % ADDRESS_RANGE;
      WrapTwice(at + 2, 2 * (words - 1));
      if words > 1 {
        WordCopyWraps(devices, device, first, next, source + 2, words - 1);
      } else {
        CopiedNothing(device, first, next, source + 2);
      }
      forall a: Word
        ensures CopiedByte(device, first, next, source + 2, 2 * words - 2, a)
                == CopiedByte(device, ram, at, source, 2 * words, a)
      {
        CopiedStep(device, ram, at, source, 2 * words, a);
      }
    }
  }

  lemma CopiedNothing(device: Device, ram: seq<Byte>, at: Word, source: nat)
    requires |ram| == ADDRESS_RANGE
    ensures forall a: Word :: CopiedByte(device, ram, at, source, 0, a) == ram[a]
  {
  }

  /** The word-by-word copy leaves the RAM if and only if it is longer than what is left and
      cannot wrap around: the two small RAMs, and the video RAM from an odd address. */
  lemma OutOfBoundsExactly(devices: seq<MappedDevice>, device: Device, ram: seq<Byte>, at: Word, source: nat,
                           words: nat)
    requires |ram| <= ADDRESS_RANGE && InOneDevice(devices, device, source, words)
    requires |ram| == ADDRESS_RANGE ==> words < ADDRESS_RANGE
    ensures WordCopy(devices, ram, at, source, words, 2).OutOfBounds?
            <==> words > 0 && at + 2 * words > |ram| && (|ram| < ADDRESS_RANGE || at % 2 == 1)
  {
    hide InOneDevice, CopiedByte;
    if words > 0 {
      if at + 2 * words <= |ram| {
        WordCopyIsBlock(devices, device, ram, at, source, words);
      } else if |ram| < ADDRESS_RANGE || at % 2 == 1 {
        WordCopyRunsOut(devices, device, ram, at, source, words);
      } else {
        WordCopyWraps(devices, device, ram, at, source, words);
      }
    }
  }

  /** For the two small RAMs: block and word-by-word copy agree if and only if the copy fits, or
      starts behind the end, where neither has a defined effect. */
  lemma SmallRamPathsAgreeExactly(devices: seq<MappedDevice>, device: Device, ram: seq<Byte>, at: Word, source: nat,
                                  words: nat)
    requires |ram| < ADDRESS_RANGE && InOneDevice(devices, device, source, words)
    ensures BlockCopy(devices, ram, at, source, words) == WordCopy(devices, ram, at, source, words, 2)
            <==> at + 2 * words <= |ram| || (words > 0 && at > |ram|)
  {
    hide InOneDevice, WordCopy;
    OutOfBoundsExactly(devices, device, ram, at, source, words);
    if at + 2 * words <= |ram| {
      BlockCopyIsWordCopy(devices, device, ram, at, source, words);
    } else if at <= |ram| {
      CutBlock(devices, device, ram, at, source, words);
    } else if words == 0 {
      NothingCopied(devices, device, ram, at, source);
    }
  }

  /** A block that is too long is cut off at the end of the RAM. */
  lemma CutBlock(devices: seq<MappedDevice>, device: Device, ram: seq<Byte>, at: Word, source: nat, words: nat)
    requires |ram| <= ADDRESS_RANGE && at <= |ram| < at + 2 * words && InOneDevice(devices, device, source, words)
    ensures BlockCopy(devices, ram, at, source, words)
            == Copied(Written(ram, at, Filled(device, source, ram[at..])), (at + 2 * words) % ADDRESS_RANGE)
  {
    hide Filled, Written, FirstMatch;
    assert ram[at..at + (|ram| - at)] == ram[at..];
  }

  lemma BlockByte(device: Device, ram: seq<Byte>, at: Word, source: nat, a: Word)
    requires |ram| == ADDRESS_RANGE
    ensures Written(ram, at, Filled(device, source, ram[at..]))[a]
            == CopiedByte(device, ram, at, source, ADDRESS_RANGE - at, a)
  {
    hide Device.ByteOr;
  }

  /** For the video RAM: block and word-by-word copy agree if and only if the copy fits, or
      starts at an even address and everything it sends past the end, to the start of the RAM,
      is what the block alone leaves there. */
  lemma VramPathsAgreeExactly(devices: seq<MappedDevice>, device: Device, ram: seq<Byte>, at: Word, source: nat,
                              words: nat)
    requires |ram| == ADDRESS_RANGE && words < ADDRESS_RANGE && InOneDevice(devices, device, source, words)
    ensures BlockCopy(devices, ram, at, source, words) == WordCopy(devices, ram, at, source, words, 2)
            <==> at + 2 * words <= ADDRESS_RANGE
                 || (at % 2 == 0
                     && forall a: Word :: CopiedByte(device, ram, at, source, 2 * words, a)
                                          == CopiedByte(device, ram, at, source, ADDRESS_RANGE - at, a))
  {
    hide InOneDevice, WordCopy, BlockCopy, CopiedByte, Filled, Written;
    if at + 2 * words <= ADDRESS_RANGE {
      BlockCopyIsWordCopy(devices, device, ram, at, source, words);
    } else {
      CutBlock(devices, device, ram, at, source, words);
      var block := Written(ram, at, Filled(device, source, ram[at..]));
      if at % 2 == 1 {
        WordCopyRunsOut(devices, device, ram, at, source, words);
      } else {
        WordCopyWraps(devices, device, ram, at, source, words);
        forall a: Word
          ensures block[a] == CopiedByte(device, ram, at, source, ADDRESS_RANGE - at, a)
        {
          BlockByte(device, ram, at, source, a);
        }
        SameContents(block, WordCopy(devices, ram, at, source, words, 2).ram);
      }
    }
  }

  lemma SameContents(one: seq<Byte>, other: seq<Byte>)
    requires |one| == |other| == ADDRESS_RANGE
    ensures one == other <==> forall a: Word :: one[a] == other[a]
  {
    if forall a: Word :: one[a] == other[a] {
      forall i | 0 <= i < |one|
        ensures one[i] == other[i]
      {
        var a: Word := i;
        assert one[a] == other[a];
      }
    }
  }

  /** Two words to the last word of the colour RAM: the block is cut off at the end, the
      word-by-word copy writes outside. */
  lemma CramPathsDiffer(devices: seq<MappedDevice>, device: Device)
    requires InOneDevice(devices, device, 0, 2)
    ensures var cram: seq<Byte> := seq(128, _ => 0);
            BlockCopy(devices, cram, 126, 0, 2).Copied? && WordCopy(devices, cram, 126, 0, 2, 2).OutOfBounds?
  {
    var cram: seq<Byte> := seq(128, _ => 0);
    OutOfBoundsExactly(devices, device, cram, 126, 0, 2);
    CutBlock(devices, device, cram, 126, 0, 2);
    hide WordCopy, BlockCopy;
  }

  /** Two words to the last word of the video RAM: the block leaves address zero alone, the
      word-by-word copy writes the second word there. */
  lemma VramPathsDiffer(devices: seq<MappedDevice>)
    requires InOneDevice(devices, RomDevice([0, 0, 1, 0]), 0, 2)
    ensures var vram: seq<Byte> := seq(ADDRESS_RANGE, _ => 0);
            var t := WordCopy(devices, vram, 65534, 0, 2, 2);
            && BlockCopy(devices, vram, 65534, 0, 2).Copied? && BlockCopy(devices, vram, 65534, 0, 2).ram[0] == 0
            && t.Copied? && t.ram[0] == 1
  {
    var device := RomDevice([0, 0, 1, 0]);
    var vram: seq<Byte> := seq(ADDRESS_RANGE, _ => 0);
    WordCopyWraps(devices, device, vram, 65534, 0, 2);
    CutBlock(devices, device, vram, 65534, 0, 2);
    assert CopiedByte(device, vram, 65534, 0, 4, 0) == 1;
    hide WordCopy, BlockCopy, CopiedByte;
  }

  // ---------------------------------------------------------------- fill

  /** Where a fill starts: for increments above one the byte order within the word swaps. */
  function FillStart(at: Word, increment: Byte): Word {
    if increment > 1 then (if at % 2 == 0 then at + 1 else at - 1) else at
  }

  /** It is the other byte of the same word. */
  lemma FillStartsInTheWord(at: Word, increment: Byte)
    ensures FillStart(at, increment) / 2 == at / 2
    ensures FillStart(at, increment) != at <==> increment > 1
  {
  }

  function Fill(ram: seq<Byte>, at: Word, n: nat, increment: Byte, value: Byte): Transfer
    decreases n
  {
    if n == 0 then Copied(ram, at)
    else if at >= |ram| then OutOfBounds
    else Fill(ram[at := value], (at + increment) % ADDRESS_RANGE, n - 1, increment, value)
  }

  /** The i-th address of a fill. */
  function FillAddress(at: Word, increment: Byte, i: nat): Word {
    (at + i * increment) % ADDRESS_RANGE
  }

  ghost predicate Covered(at: Word, n: nat, increment: Byte, a: nat) {
    exists i :: 0 <= i < n && FillAddress(at, increment, i) == a
  }

  lemma NextAddress(at: Word, increment: Byte, i: nat)
    ensures FillAddress((at + increment) % ADDRESS_RANGE, increment, i) == FillAddress(at, increment, i + 1)
  {
    var step := i * increment;
    assert (i + 1) * increment == step + increment;
    WrapTwice(at + increment, step);
  }

  lemma WrapTwice(a: int, b: int)
    ensures (a % ADDRESS_RANGE + b) % ADDRESS_RANGE == (a + b) % ADDRESS_RANGE
  {
  }

  /** A fill of the whole-range video RAM changes exactly the addresses start + i * increment
      modulo 65536, gives each of them the value, and ends at the next one. */
  lemma {:induction false} FillCoversExactly(ram: seq<Byte>, at: Word, n: nat, increment: Byte, value: Byte)
    requires |ram| == ADDRESS_RANGE
    ensures var t := Fill(ram, at, n, increment, value);
            && t.Copied? && |t.ram| == ADDRESS_RANGE
            && t.address == FillAddress(at, increment, n)
            && forall a :: 0 <= a < ADDRESS_RANGE ==>
                 t.ram[a] == if Covered(at, n, increment, a) then value else ram[a]
    decreases n
  {
    if n > 0 {
      var next := (at + increment) % ADDRESS_RANGE;
      var first := ram[at := value];
      FillCoversExactly(first, next, n - 1, increment, value);
      NextAddress(at, increment, n - 1);
      forall a | 0 <= a < ADDRESS_RANGE
        ensures Covered(at, n, increment, a) <==> a == at || Covered(next, n - 1, increment, a)
      {
        CoveredStep(at, n, increment, a);
      }
    }
  }

  lemma CoveredStep(at: Word, n: nat, increment: Byte, a: nat)
    requires n > 0
    ensures Covered(at, n, increment, a)
            <==> a == at || Covered((at + increment) % ADDRESS_RANGE, n - 1, increment, a)
  {
    var next := (at + increment) % ADDRESS_RANGE;
    assert FillAddress(at, increment, 0) == at;
    forall i: nat
      ensures FillAddress(next, increment, i) == FillAddress(at, increment, i + 1)
    {
      NextAddress(at, increment, i);
    }
    if Covered(at, n, increment, a) && a != at {
      var i :| 0 <= i < n && FillAddress(at, increment, i) == a;
      assert FillAddress(next, increment, i - 1) == a;
    }
    if Covered(next, n - 1, increment, a) {
      var i :| 0 <= i < n - 1 && FillAddress(next, increment, i) == a;
      assert FillAddress(at, increment, i + 1) == a;
    }
  }

  // ---------------------------------------------------------------- the transfers

  /** The fast transfer: one block, cut off at the end of the RAM. */
  method TransferBlock(bus: BusDevice, ram: array<Byte>, at: Word, source: nat, words: nat)
    returns (r: Status, address: Word)
    modifies ram
    ensures Reported(BlockCopy(bus.mappedDevices, old(ram[..]), at, source, words), r, ram[..], address)
  {
    hide Fetch, Written;
    if at > ram.Length {
      return NoBehaviour, at;
    }
    var n := Min(2 * words, ram.Length - at);
    var ok := bus.Read(source, ram, at, n);
    assert old(ram[..])[at..at + n] == old(ram[at..at + n]);
    if !ok {
      return Error, at;
    }
    r, address := Ok, (at + 2 * words) % ADDRESS_RANGE;
  }

  /** The slow transfer, word by word. */
  method TransferWords(bus: BusDevice, ram: array<Byte>, at: Word, source: nat, words: nat, increment: Byte)
    returns (r: Status, address: Word)
    modifies ram
    ensures Reported(WordCopy(bus.mappedDevices, old(ram[..]), at, source, words, increment), r, ram[..], address)
  {
    hide Fetch, Written;
    address := at;
    for i := 0 to words
      invariant WordCopy(bus.mappedDevices, old(ram[..]), at, source, words, increment)
                == WordCopy(bus.mappedDevices, ram[..], address, source + 2 * i, words - i, increment)
    {
      if address + 2 > ram.Length {
        return NoBehaviour, address;
      }
      ghost var before := ram[..];
      assert before[address..address + 2] == ram[address..address + 2];
      var ok := bus.Read(source + 2 * i, ram, address, 2);
      if !ok {
        return Error, address;
      }
      address := (address + increment) % ADDRESS_RANGE;
    }
    r := Ok;
  }

  /** The armed fill: one byte per step, from the adjusted start address. */
  method TransferFill(ram: array<Byte>, at: Word, length: nat, increment: Byte, value: Byte)
    returns (r: Status, address: Word)
    modifies ram
    ensures Reported(Fill(old(ram[..]), FillStart(at, increment), length, increment, value), r, ram[..], address)
  {
    address := at;
    if increment > 1 {
      if address % 2 == 0 {
        address := address + 1;
      } else {
        address := address - 1;
      }
    }
    for i := 0 to length
      invariant Fill(old(ram[..]), FillStart(at, increment), length, increment, value)
                == Fill(ram[..], address, length - i, increment, value)
    {
      if address >= ram.Length {
        return NoBehaviour, address;
      }
      ghost var before := ram[..];
      ram[address] := value;
      assert ram[..] == before[address := value];
      address := (address + increment) % ADDRESS_RANGE;
    }
    r := Ok;
  }
}
