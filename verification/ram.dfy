/** The 68000's work RAM on the 24-bit bus (src/sega/memory/m68k_ram_device.cpp, with the
    address mask of src/sega/memory/bus_device.cpp). */
module Ram {
  import opened Words

  const RAM_BEGIN := 0xFF0000
  const RAM_SIZE := 0x1_0000
  const ADDRESS_MODULUS := 0x100_0000

  /** Position of a bus address relative to the RAM; the address one past the last byte, which
      wraps to zero on the bus, has position RAM_SIZE. */
  function Pos(addr: Long): (p: nat) {
    (addr - RAM_BEGIN) % ADDRESS_MODULUS
  }

  /** Big-endian bytes. */
  function WordBytes(w: Word): (s: seq<Byte>)
    ensures |s| == 2
  {
    [w / 0x100, w % 0x100]
  }

  function LongBytes(v: Long): (s: seq<Byte>)
    ensures |s| == 4
  {
    WordBytes(v / 0x1_0000) + WordBytes(v % 0x1_0000)
  }

  function FromBytes(s: seq<Byte>): nat {
    if |s| == 0 then 0 else FromBytes(s[..|s| - 1]) * 0x100 + s[|s| - 1]
  }

  lemma WordRoundTrip(w: Word)
    ensures FromBytes(WordBytes(w)) == w
  {
    var s := WordBytes(w);
    assert s[..1][..0] == [];
    assert s[..1][0] == w / 0x100;
    assert FromBytes(s[..1]) == w / 0x100;
  }

  lemma LongRoundTrip(v: Long)
    ensures FromBytes(LongBytes(v)) == v
  {
    var s := LongBytes(v);
    var hi, lo := v / 0x1_0000, v % 0x1_0000;
    assert s[..3][..2] == WordBytes(hi);
    WordRoundTrip(hi);
    assert s[..3][2] == lo / 0x100;
    assert FromBytes(s[..3]) == hi * 0x100 + lo / 0x100;
    assert s[3] == lo % 0x100;
  }

  /** The contents after a write. */
  function Written(data: seq<Byte>, at: nat, bytes: seq<Byte>): (r: seq<Byte>)
    requires at + |bytes| <= |data|
    ensures |r| == |data|
  {
    data[..at] + bytes + data[at + |bytes|..]
  }

  class M68kRam {
    var data: array<Byte>

    ghost predicate Valid()
      reads this
    {
      data.Length == RAM_SIZE
    }

    constructor ()
      ensures Valid() && fresh(data)
    {
      data := new Byte[RAM_SIZE](_ => 0);
    }

    /** Bytes are fetched one by one from the position of the masked address. */
    method Read(addr: Long, n: nat) returns (bytes: seq<Byte>)
      requires Valid() && Pos(addr) + n <= RAM_SIZE
      ensures bytes == data[Pos(addr)..Pos(addr) + n]
    {
      bytes := [];
      for i := 0 to n
        invariant bytes == data[Pos(addr)..Pos(addr) + i]
      {
        bytes := bytes + [data[Pos(addr) + i]];
      }
    }

    method Write(addr: Long, bytes: seq<Byte>)
      requires Valid() && Pos(addr) + |bytes| <= RAM_SIZE
      modifies data
      ensures data[..] == Written(old(data[..]), Pos(addr), bytes)
    {
      for i := 0 to |bytes|
        invariant forall j :: 0 <= j < i ==> data[Pos(addr) + j] == bytes[j]
        invariant forall j :: 0 <= j < RAM_SIZE && !(Pos(addr) <= j < Pos(addr) + i) ==> data[j] == old(data[j])
      {
        data[Pos(addr) + i] := bytes[i];
      }
    }
  }
}
