/** The ROM image as the analyser reads it: big-endian words, vectors and table entries where
    they stand (src/recomp/analyzer.cpp:23-38, 54-66, 325-346). */
module RomImage {
  import opened Words
  import opened Ram
  import opened Decode
  import opened CodeGraph

  /** An instruction word is the two bytes at its address, the high one first. */
  lemma WordReads(rom: seq<Byte>, a: nat)
    requires a + 2 <= |rom| <= ADDRESS_MODULUS
    ensures WordBytes(RomWord(rom, a)) == rom[a..a + 2]
  {
    DivUnique(rom[a] as int * 0x100 + rom[a + 1], 0x100, rom[a], rom[a + 1]);
  }

  /** Addresses have 24 bits, and behind the image the decoder reads zeros. */
  lemma WordAliases(rom: seq<Byte>, a: nat, k: nat)
    ensures RomWord(rom, a + ADDRESS_MODULUS * k) == RomWord(rom, a)
    ensures |rom| <= a < ADDRESS_MODULUS - 1 ==> RomWord(rom, a) == 0
  {
    ByteAliases(a, k);
    ByteAliases(a + 1, k);
  }

  lemma ByteAliases(a: nat, k: nat)
    ensures (a + ADDRESS_MODULUS * k) % ADDRESS_MODULUS == a % ADDRESS_MODULUS
  {
    DivUnique(a + ADDRESS_MODULUS * k, ADDRESS_MODULUS, a / ADDRESS_MODULUS + k, a % ADDRESS_MODULUS);
  }

  lemma FromBytesBound(s: seq<Byte>)
    requires |s| <= 4
    ensures |s| == 0 ==> FromBytes(s) == 0
    ensures |s| == 1 ==> FromBytes(s) < 0x100
    ensures |s| == 2 ==> FromBytes(s) < 0x1_0000
    ensures |s| == 3 ==> FromBytes(s) < 0x100_0000
    ensures |s| == 4 ==> FromBytes(s) < 0x1_0000_0000
  {
    if |s| > 0 {
      FromBytesBound(s[..|s| - 1]);
    }
  }

  /** A value of up to four bytes inside the image is what stands there, big-endian. */
  lemma {:induction false} ValueReads(rom: seq<Byte>, a: Long, n: nat)
    requires n <= 4 && a + n <= |rom| <= 0x1_0000_0000
    ensures RomValue(rom, a, n) == FromBytes(rom[a..a + n])
    decreases n
  {
    if n > 0 {
      hide RomValue, FromBytes, ToLong;
      var s := rom[a..a + n];
      ValueReads(rom, a, n - 1);
      assert s[..n - 1] == rom[a..a + n - 1] && s[n - 1] == rom[a + n - 1];
      ValueUnfold(rom, a, n);
      BytesUnfold(s);
      FromBytesBound(s);
      SmallIsLong(FromBytes(s));
    }
  }

  lemma SmallIsLong(v: nat)
    requires v < 0x1_0000_0000
    ensures ToLong(v) == v
  {
  }

  lemma ValueUnfold(rom: seq<Byte>, a: Long, n: nat)
    requires 0 < n && a + n <= |rom| <= 0x1_0000_0000
    ensures RomValue(rom, a, n) == ToLong(RomValue(rom, a, n - 1) * 0x100 + rom[a + n - 1])
  {
    DivUnique(a + n - 1, 0x1_0000_0000, 0, a + n - 1);
    assert ToLong(a + n - 1) == a + n - 1;
    hide ToLong;
  }

  lemma BytesUnfold(s: seq<Byte>)
    requires s != []
    ensures FromBytes(s) == FromBytes(s[..|s| - 1]) * 0x100 + s[|s| - 1]
  {
  }

  lemma BytesAreLong(s: seq<Byte>, v: Long)
    requires |s| == 4
    ensures FromBytes(s) == v <==> s == LongBytes(v)
  {
    LongRoundTrip(v);
    if FromBytes(s) == v {
      SameBytes(s, LongBytes(v));
    }
  }

  lemma {:induction false} SameBytes(s: seq<Byte>, t: seq<Byte>)
    requires |s| == |t| && FromBytes(s) == FromBytes(t)
    ensures s == t
    decreases |s|
  {
    if |s| > 0 {
      var n := |s| - 1;
      EuclidUnique(0x100, FromBytes(s[..n]), s[n], FromBytes(t[..n]), t[n]);
      SameBytes(s[..n], t[..n]);
      assert s == s[..n] + [s[n]] && t == t[..n] + [t[n]];
    }
  }

  /** The vectors the analysis starts from are the longs at 4, 0x70 and 0x78. */
  lemma VectorsStand(p: Program, a: Long)
    requires 0x7C <= |p.rom| <= 0x1_0000_0000
    ensures Vector(p, a)
            <==> p.rom[4..8] == LongBytes(a) || p.rom[0x70..0x74] == LongBytes(a) || p.rom[0x78..0x7C] == LongBytes(a)
  {
    hide RomValue;
    ValueReads(p.rom, 4, 4);
    ValueReads(p.rom, 0x70, 4);
    ValueReads(p.rom, 0x78, 4);
    BytesAreLong(p.rom[4..8], a);
    BytesAreLong(p.rom[0x70..0x74], a);
    BytesAreLong(p.rom[0x78..0x7C], a);
  }

  /** Entry i of a switch table is what stands i entries behind its address. */
  lemma TableStands(p: Program, table: SwitchTable, i: nat)
    requires 1 <= table.entrySize <= 4
    requires table.address + (i + 1) * table.entrySize <= |p.rom| <= 0x1_0000_0000
    ensures var at := table.address + i * table.entrySize;
            && 0 <= at <= at + table.entrySize <= |p.rom|
            && Entry(p, table, i) == FromBytes(p.rom[at..at + table.entrySize])
  {
    hide RomValue;
    var step := i * table.entrySize;
    assert (i + 1) * table.entrySize == step + table.entrySize;
    ValueReads(p.rom, table.address + step, table.entrySize);
  }
}
