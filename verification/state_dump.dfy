/** Save-state files (src/sega/state_dump/state_dump.cpp): a magic, then four chunks, each a
    32-bit little-endian length and that many bytes. */
module StateDump {
  import opened Words
  import opened Ram
  import opened Bus
  import opened Dma
  import opened VdpRegisters
  import opened Vdp

  const MAGIC: seq<Byte> := [0x53, 0x4D, 0x44, 0x53, 0x54, 0x30, 0x30, 0x31]

  /** The magic is the name and the version of the format. */
  lemma MagicIsTheName()
    ensures |MAGIC| == |"SMDST001"| && forall i :: 0 <= i < |MAGIC| ==> MAGIC[i] == "SMDST001"[i] as int
  {
  }

  const REGISTERS_SIZE := 76
  const Z80_RAM_SIZE := 0x2000

  /** The parts of the machine that a file holds; the processor's registers are the bytes of
      their record. */
  datatype Parts = Parts(registers: seq<Byte>, m68kRam: seq<Byte>, z80Ram: seq<Byte>, vdp: State) {
    ghost predicate Valid() {
      && |registers| == REGISTERS_SIZE && |m68kRam| == RAM_SIZE && |z80Ram| == Z80_RAM_SIZE
      && vdp.Valid()
    }
  }

  // ---------------------------------------------------------------- framing

  function SizeBytes(n: Long): (s: seq<Byte>)
    ensures |s| == 4
  {
    [n % 0x100, n / 0x100 % 0x100, n / 0x1_0000 % 0x100, n / 0x100_0000]
  }

  function SizeOf(s: seq<Byte>): nat
    requires |s| == 4
  {
    var b0: int, b1: int, b2: int, b3: int := s[0], s[1], s[2], s[3];
    b0 + 0x100 * (b1 + 0x100 * (b2 + 0x100 * b3))
  }

  lemma SizeRoundTrip(n: Long)
    ensures SizeOf(SizeBytes(n)) == n
  {
    var n1 := n / 0x100;
    var n2 := n1 / 0x100;
    DivUnique(n, 0x1_0000, n2, n1 % 0x100 * 0x100 + n % 0x100);
    DivUnique(n, 0x100_0000, n2 / 0x100, n2 % 0x100 * 0x1_0000 + n1 % 0x100 * 0x100 + n % 0x100);
    assert n == n % 0x100 + 0x100 * (n1 % 0x100 + 0x100 * (n2 % 0x100 + 0x100 * (n2 / 0x100)));
  }

  function Chunk(data: seq<Byte>): (s: seq<Byte>)
    requires |data| < 0x1_0000_0000
    ensures |s| == 4 + |data|
  {
    SizeBytes(|data|) + data
  }

  /** Read a chunk at a position: the data and the position after it, or None when the file
      ends before. */
  function ReadChunk(file: seq<Byte>, pos: nat): Option<(seq<Byte>, nat)> {
    if pos + 4 > |file| then None
    else
      var size := SizeOf(file[pos..pos + 4]);
      if pos + 4 + size > |file| then None
      else Some((file[pos + 4..pos + 4 + size], pos + 4 + size))
  }

  /** In a file cut off at n, a chunk is read back exactly when all of it is there. */
  lemma ChunkReadsBack(file: seq<Byte>, n: nat, pos: nat, data: seq<Byte>)
    requires |data| < 0x1_0000_0000 && pos + 4 + |data| <= |file| && pos <= n <= |file|
    requires file[pos..pos + 4 + |data|] == Chunk(data)
    ensures ReadChunk(file[..n], pos) == if pos + 4 + |data| <= n then Some((data, pos + 4 + |data|)) else None
  {
    var whole := file[pos..pos + 4 + |data|];
    assert whole[..4] == file[pos..pos + 4] == SizeBytes(|data|);
    assert whole[4..] == file[pos + 4..pos + 4 + |data|] == data;
    SizeRoundTrip(|data|);
    hide SizeOf, SizeBytes;
    if pos + 4 <= n {
      assert file[..n][pos..pos + 4] == file[pos..pos + 4];
      if pos + 4 + |data| <= n {
        assert file[..n][pos + 4..pos + 4 + |data|] == file[pos + 4..pos + 4 + |data|];
      }
    }
  }

  // ---------------------------------------------------------------- save and load

  function Save(p: Parts): seq<Byte>
    requires p.Valid()
  {
    MAGIC + Chunk(p.registers) + Chunk(p.m68kRam) + Chunk(p.z80Ram) + Chunk(Dump(p.vdp))
  }

  /** A restore of a RAM copies as many bytes as both have. */
  function Overlaid(ram: seq<Byte>, state: seq<Byte>): (r: seq<Byte>)
    ensures |r| == |ram|
  {
    if |state| >= |ram| then state[..|ram|] else state + ram[|state|..]
  }

  lemma OverlaidWhole(ram: seq<Byte>, state: seq<Byte>)
    requires |ram| == |state|
    ensures Overlaid(ram, state) == state
  {
  }

  /** The end of a load; a rejected file may already have replaced some parts. */
  datatype Result = Loaded(parts: Parts) | Rejected(parts: Parts) | Unspecified

  function Load(p: Parts, file: seq<Byte>): Result
    requires p.Valid()
  {
    if |file| < |MAGIC| || file[..|MAGIC|] != MAGIC then Rejected(p) else
    var c1 := ReadChunk(file, |MAGIC|);
    if c1.None? || |c1.value.0| != REGISTERS_SIZE then Rejected(p) else
    var p1 := p.(registers := c1.value.0);
    var c2 := ReadChunk(file, c1.value.1);
    if c2.None? then Rejected(p1) else
    var p2 := p1.(m68kRam := Overlaid(p1.m68kRam, c2.value.0));
    var c3 := ReadChunk(file, c2.value.1);
    if c3.None? then Rejected(p2) else
    var p3 := p2.(z80Ram := Overlaid(p2.z80Ram, c3.value.0));
    var c4 := ReadChunk(file, c3.value.1);
    if c4.None? then Rejected(p3) else
    match Apply(p3.vdp, c4.value.0)
    case Done(vdp) => Loaded(p3.(vdp := vdp))
    case _ => Unspecified
  }

  // ---------------------------------------------------------------- positions in a saved file

  const RAM_AT := 8 + 4 + REGISTERS_SIZE
  const Z80_AT := RAM_AT + 4 + RAM_SIZE
  const VDP_AT := Z80_AT + 4 + Z80_RAM_SIZE
  const FILE_SIZE := VDP_AT + 4 + DUMP_SIZE

  lemma Layout(p: Parts)
    requires p.Valid()
    ensures var file := Save(p);
            && |file| == FILE_SIZE
            && file[..8] == MAGIC
            && file[8..RAM_AT] == Chunk(p.registers)
            && file[RAM_AT..Z80_AT] == Chunk(p.m68kRam)
            && file[Z80_AT..VDP_AT] == Chunk(p.z80Ram)
            && file[VDP_AT..] == Chunk(Dump(p.vdp))
  {
    hide SizeBytes;
  }

  /** What a file cut off at n puts into the machine: the chunks that are there completely, in
      order. */
  function Partial(p: Parts, t: Parts, n: nat): Parts {
    if n < RAM_AT then t
    else if n < Z80_AT then t.(registers := p.registers)
    else if n < VDP_AT then t.(registers := p.registers, m68kRam := p.m68kRam)
    else t.(registers := p.registers, m68kRam := p.m68kRam, z80Ram := p.z80Ram)
  }

  /** Loading the saved file of p into any machine t, cut off anywhere or complete: a shorter
      file is rejected and has replaced exactly the parts whose chunks it contains, the video
      processor never; the complete file replaces everything a file holds, whatever follows
      it. */
  lemma LoadOfSave(p: Parts, t: Parts, more: seq<Byte>, n: nat)
    requires p.Valid() && t.Valid() && Consistent(p.vdp) && n <= FILE_SIZE + |more|
    ensures |Save(p)| == FILE_SIZE
    ensures Load(t, (Save(p) + more)[..n])
            == if n < FILE_SIZE then Rejected(Partial(p, t, n))
               else Loaded(p.(vdp := t.vdp.(settings := Decode(p.vdp.registers), registers := p.vdp.registers,
                                            vram := p.vdp.vram, vsram := p.vdp.vsram, cram := p.vdp.cram)))
  {
    Layout(p);
    var saved := Save(p);
    var file := saved + more;
    LayoutWithMore(p, more);
    OverlaidWhole(t.m68kRam, p.m68kRam);
    OverlaidWhole(t.z80Ram, p.z80Ram);
    hide Save, Chunk, ReadChunk, Decode, Dump, Apply, Overlaid;
    assert n >= 8 ==> file[..n][..8] == file[..8];
    if n >= 8 {
      ChunkReadsBack(file, n, 8, p.registers);
    }
    if n >= RAM_AT {
      ChunkReadsBack(file, n, RAM_AT, p.m68kRam);
    }
    if n >= Z80_AT {
      ChunkReadsBack(file, n, Z80_AT, p.z80Ram);
    }
    if n >= VDP_AT {
      DumpLength(p.vdp);
      ChunkReadsBack(file, n, VDP_AT, Dump(p.vdp));
      RestoreOfDump(p.vdp, t.vdp);
    }
  }

  lemma ApplyNeverFails(s: State, dump: seq<Byte>)
    requires s.Valid()
    ensures !Apply(s, dump).Failed?
  {
  }

  lemma DumpLength(s: State)
    requires s.Valid()
    ensures |Dump(s)| == DUMP_SIZE
  {
  }

  lemma LayoutWithMore(p: Parts, more: seq<Byte>)
    requires p.Valid()
    ensures var file := Save(p) + more;
            && |Dump(p.vdp)| == DUMP_SIZE
            && |Save(p)| == FILE_SIZE
            && file[..8] == MAGIC
            && file[8..8 + 4 + REGISTERS_SIZE] == Chunk(p.registers)
            && file[RAM_AT..RAM_AT + 4 + RAM_SIZE] == Chunk(p.m68kRam)
            && file[Z80_AT..Z80_AT + 4 + Z80_RAM_SIZE] == Chunk(p.z80Ram)
            && file[VDP_AT..VDP_AT + 4 + DUMP_SIZE] == Chunk(Dump(p.vdp))
  {
    Layout(p);
    var saved := Save(p);
    hide Save, Chunk;
    var file := saved + more;
    assert file[..8] == saved[..8];
    assert file[8..RAM_AT] == saved[8..RAM_AT];
    assert file[RAM_AT..Z80_AT] == saved[RAM_AT..Z80_AT];
    assert file[Z80_AT..VDP_AT] == saved[Z80_AT..VDP_AT];
    assert file[VDP_AT..FILE_SIZE] == saved[VDP_AT..];
  }

  /** After any run of the video processor from power-on, a saved file restores the registers,
      both RAMs, the video RAMs, the video registers and every cached field in any machine, if
      and only if mode 2, mode 4 and the plane size were written; the pending command word, the
      selected RAM, its address and the transfer flag are not saved. */
  lemma SaveThenLoadExactly(p: Parts, t: Parts, devices: seq<MappedDevice>, events: seq<Event>)
    requires p.Valid() && t.Valid() && Run(POWER_ON, devices, events) == Some(p.vdp)
    ensures Load(t, Save(p))
            == Loaded(p.(vdp := p.vdp.(firstHalf := t.vdp.firstHalf, useDma := t.vdp.useDma,
                                       ramKind := t.vdp.ramKind, ramAddress := t.vdp.ramAddress)))
            <==> Wrote(events, MODE_SET_2) && Wrote(events, MODE_SET_4) && Wrote(events, PLANE_SIZE)
  {
    hide Run, Decode, Load, Save, Wrote, Apply, Dump;
    PowerOnConsistent();
    ReachableConsistent(POWER_ON, devices, events);
    LoadOfSave(p, t, [], FILE_SIZE);
    assert (Save(p) + [])[..FILE_SIZE] == Save(p);
    RestoresCachedFieldsExactly(devices, events, p.vdp, t.vdp);
    RestoreOfDump(p.vdp, t.vdp);
  }

  // ---------------------------------------------------------------- the files

  /** The devices a dump is taken from and applied to. */
  class Dumper {
    const registers: array<Byte>
    const m68kRam: array<Byte>
    const z80Ram: array<Byte>
    const vdp: VdpDevice

    ghost predicate Valid()
      reads this, vdp
    {
      && registers.Length == REGISTERS_SIZE && m68kRam.Length == RAM_SIZE && z80Ram.Length == Z80_RAM_SIZE
      && vdp.Valid()
      && {registers, m68kRam, z80Ram} !! {vdp.registers, vdp.vram, vdp.vsram, vdp.cram}
    }

    ghost function View(): (p: Parts)
      requires Valid()
      reads this, registers, m68kRam, z80Ram, vdp, vdp.registers, vdp.vram, vdp.vsram, vdp.cram
      ensures p.Valid()
    {
      Parts(registers[..], m68kRam[..], z80Ram[..], vdp.View())
    }

    constructor (registers: array<Byte>, m68kRam: array<Byte>, z80Ram: array<Byte>, vdp: VdpDevice)
      requires registers.Length == REGISTERS_SIZE && m68kRam.Length == RAM_SIZE && z80Ram.Length == Z80_RAM_SIZE
      requires vdp.Valid() && {registers, m68kRam, z80Ram} !! {vdp.registers, vdp.vram, vdp.vsram, vdp.cram}
      ensures Valid()
      ensures this.registers == registers && this.m68kRam == m68kRam && this.z80Ram == z80Ram && this.vdp == vdp
    {
      this.registers, this.m68kRam, this.z80Ram, this.vdp := registers, m68kRam, z80Ram, vdp;
    }

    method SaveState() returns (file: seq<Byte>)
      requires Valid()
      ensures file == Save(View())
    {
      file := MAGIC;
      file := file + Chunk(registers[..]);
      file := file + Chunk(m68kRam[..]);
      file := file + Chunk(z80Ram[..]);
      var state := vdp.DumpState();
      file := file + Chunk(state);
    }

    /** Copy as many bytes as both have. */
    method Overlay(a: array<Byte>, state: seq<Byte>)
      modifies a
      ensures a[..] == Overlaid(old(a[..]), state)
    {
      var count := if |state| < a.Length then |state| else a.Length;
      ghost var before := a[..];
      ghost var target := Overlaid(before, state);
      for i := 0 to count
        invariant forall j :: 0 <= j < a.Length ==> a[j] == if j < i then target[j] else before[j]
      {
        a[i] := state[i];
      }
      assert a[..] == target;
    }

    /** Load a file chunk by chunk; every chunk is applied before the next one is read. */
    method LoadState(file: seq<Byte>) returns (r: Status)
      requires Valid()
      modifies registers, m68kRam, z80Ram, vdp, vdp.registers, vdp.vram, vdp.vsram, vdp.cram
      ensures Valid()
      ensures match Load(old(View()), file)
              case Loaded(p) => r == Ok && View() == p
              case Rejected(p) => r == Error && View() == p
              case Unspecified => r == NoBehaviour
    {
      hide ReadChunk, Apply;
      if |file| < |MAGIC| || file[..|MAGIC|] != MAGIC {
        return Error;
      }
      var chunk := ReadChunk(file, |MAGIC|);
      if chunk.None? || |chunk.value.0| != registers.Length {
        return Error;
      }
      Overlay(registers, chunk.value.0);
      chunk := ReadChunk(file, chunk.value.1);
      if chunk.None? {
        return Error;
      }
      Overlay(m68kRam, chunk.value.0);
      chunk := ReadChunk(file, chunk.value.1);
      if chunk.None? {
        return Error;
      }
      Overlay(z80Ram, chunk.value.0);
      chunk := ReadChunk(file, chunk.value.1);
      if chunk.None? {
        return Error;
      }
      ApplyNeverFails(vdp.View(), chunk.value.0);
      r := vdp.ApplyState(chunk.value.0);
    }
  }
}
