/** MOVEM: storing a list of registers to a predecrement operand and loading it from a
    postincrement operand (src/m68k/instruction/execute.cpp:804-862, with the address updates
    of src/m68k/target/target.cpp:96-115). */
module Movem {
  import opened Words
  import opened CpuRegisters
  import opened Ram
  import opened Frames

  /** The register list: bit i of the opcode's mask word. */
  type Mask = s: seq<bool> | |s| == 16 witness seq(16, _ => false)

  /** The mask of the predecrement form names the registers in the opposite order. */
  function Reversed(mask: Mask): Mask {
    seq(16, i requires 0 <= i < 16 => mask[15 - i])
  }

  /** Population count of the first n bits. */
  function Count(mask: Mask, n: nat): nat
    requires n <= 16
  {
    if n == 0 then 0 else Count(mask, n - 1) + B2I(mask[n - 1])
  }

  function RegisterBytes(v: Long, size: Size): (s: seq<Byte>)
    ensures size != ByteSize ==> |s| == size.Bytes()
  {
    if size == LongSize then LongBytes(v) else WordBytes(v % 0x1_0000)
  }

  /** What a load makes of the bytes of one register: a word is sign-extended. */
  function FromRegisterBytes(s: seq<Byte>, size: Size): Long
    requires |s| == size.Bytes()
  {
    LongBytesBound(s);
    if size == LongSize then FromBytes(s) else ToLong(Signed(FromBytes(s), WordSize))
  }

  /** The value a register has after it was stored and loaded. */
  function Narrowed(v: Long, size: Size): Long {
    if size == LongSize then v else ToLong(Signed(v, WordSize))
  }

  lemma RegisterRoundTrip(v: Long, size: Size)
    requires size != ByteSize
    ensures FromRegisterBytes(RegisterBytes(v, size), size) == Narrowed(v, size)
  {
    if size == LongSize {
      LongRoundTrip(v);
    } else {
      Ram.WordRoundTrip(v % 0x1_0000);
    }
  }

  /** The bytes of the listed registers below n, D0 first. */
  function Stored(file: seq<Long>, mask: Mask, size: Size, n: nat): seq<Byte>
    requires |file| == 16 && n <= 16
  {
    if n == 0 then []
    else Stored(file, mask, size, n - 1) + (if mask[n - 1] then RegisterBytes(file[n - 1], size) else [])
  }

  lemma {:induction false} StoredLength(file: seq<Long>, mask: Mask, size: Size, n: nat)
    requires |file| == 16 && n <= 16 && size != ByteSize
    ensures |Stored(file, mask, size, n)| == size.Bytes() * Count(mask, n)
  {
    if n > 0 {
      StoredLength(file, mask, size, n - 1);
      match size {
        case WordSize =>
        case LongSize =>
      }
    }
  }

  /** Each listed register's bytes lie behind those of the listed registers below it. */
  lemma {:induction false} StoredSlice(file: seq<Long>, mask: Mask, size: Size, i: nat, n: nat)
    requires |file| == 16 && i < n <= 16 && size != ByteSize && mask[i]
    ensures size.Bytes() * Count(mask, i) + size.Bytes() <= |Stored(file, mask, size, n)|
    ensures Stored(file, mask, size, n)[size.Bytes() * Count(mask, i)..][..size.Bytes()] == RegisterBytes(file[i], size)
  {
    var before := Stored(file, mask, size, n - 1);
    var bytes := if mask[n - 1] then RegisterBytes(file[n - 1], size) else [];
    assert Stored(file, mask, size, n) == before + bytes;
    hide Stored, Count, RegisterBytes;
    StoredLength(file, mask, size, n - 1);
    if i < n - 1 {
      StoredSlice(file, mask, size, i, n - 1);
      SliceBefore(before, bytes, size.Bytes() * Count(mask, i), size.Bytes());
    } else {
      assert (before + bytes)[|before|..][..size.Bytes()] == bytes;
    }
  }

  lemma SliceBefore(before: seq<Byte>, after: seq<Byte>, at: nat, n: nat)
    requires at + n <= |before|
    ensures (before + after)[at..][..n] == before[at..][..n]
  {
  }

  /** Position of register i's bytes in a transfer. */
  function Offset(mask: Mask, size: Size, i: nat): nat
    requires i <= 16
  {
    size.Bytes() * Count(mask, i)
  }

  /** The register file after a load; the pointer register is skipped. */
  function Loaded(file: seq<Long>, data: seq<Byte>, mask: Mask, size: Size, pointer: nat, n: nat): (r: seq<Long>)
    requires |file| == 16 && n <= 16
    requires |data| == Offset(mask, size, 16)
    ensures |r| == 16
  {
    seq(16, i requires 0 <= i < 16 =>
      if i < n && mask[i] && i != pointer then
        OffsetBound(mask, size, i);
        FromRegisterBytes(data[Offset(mask, size, i)..][..size.Bytes()], size)
      else file[i])
  }

  lemma {:induction false} CountMonotonic(mask: Mask, i: nat, n: nat)
    requires i <= n <= 16
    ensures Count(mask, i) <= Count(mask, n)
  {
    if i < n {
      CountMonotonic(mask, i, n - 1);
    }
  }

  lemma OffsetBound(mask: Mask, size: Size, i: nat)
    requires i < 16 && mask[i]
    ensures Offset(mask, size, i) + size.Bytes() <= Offset(mask, size, 16)
  {
    assert Count(mask, i + 1) == Count(mask, i) + 1;
    CountMonotonic(mask, i + 1, 16);
    match size {
      case ByteSize =>
      case WordSize =>
      case LongSize =>
    }
  }

  /** The address update of a multi-register operand; the stack pointer moves by at least a
      word. */
  function Adjustment(n: nat, size: Size, count: nat): (r: int)
    ensures r >= 0
  {
    var diff := size.Bytes() * count;
    if n == 7 && diff < 2 then 2 else diff
  }

  /** How far the pointer moves for a number of bytes: over exactly these bytes, but the stack
      pointer moves by a word for an empty list. */
  function Moved(n: nat, length: nat): int {
    if n == 7 && length == 0 then 2 else length
  }

  lemma AdjustmentIsLength(n: nat, file: seq<Long>, mask: Mask, size: Size)
    requires |file| == 16 && size != ByteSize
    ensures Adjustment(n, size, Count(mask, 16)) == Moved(n, Offset(mask, size, 16))
    ensures Offset(mask, size, 16) == |Stored(file, mask, size, 16)|
  {
    hide Stored, Count;
    StoredLength(file, mask, size, 16);
    match size {
      case WordSize =>
      case LongSize =>
    }
  }

  // ---------------------------------------------------------------- the register file

  /** D0 to D7, A0 to A6 and the selected stack pointer. */
  ghost function File(regs: Registers): (f: seq<Long>)
    requires regs.Valid()
    reads regs, regs.d, regs.a
    ensures |f| == 16
  {
    regs.d[..] + regs.a[..] + [regs.StackPtr()]
  }

  method GetRegister(regs: Registers, i: nat) returns (v: Long)
    requires regs.Valid() && i < 16
    ensures v == File(regs)[i]
  {
    if i <= 7 {
      v := regs.d[i];
    } else if i <= 14 {
      v := regs.a[i - 8];
    } else {
      v := regs.StackPtr();
    }
  }

  method SetRegister(regs: Registers, i: nat, v: Long)
    requires regs.Valid() && i < 16
    modifies regs`usp, regs`ssp, regs.d, regs.a
    ensures regs.Valid() && File(regs) == old(File(regs))[i := v]
  {
    if i <= 7 {
      regs.d[i] := v;
    } else if i <= 14 {
      regs.a[i - 8] := v;
    } else {
      regs.SetStackPtr(v);
    }
  }

  // ---------------------------------------------------------------- the instruction

  method Gather(regs: Registers, size: Size, mask: Mask, predecrement: bool) returns (data: seq<Byte>)
    requires regs.Valid() && size != ByteSize
    ensures data == Stored(File(regs), if predecrement then Reversed(mask) else mask, size, 16)
  {
    data := [];
    ghost var listed := if predecrement then Reversed(mask) else mask;
    for i := 0 to 16
      invariant data == Stored(File(regs), listed, size, i)
    {
      var has := mask[i];
      if predecrement {
        has := mask[15 - i];
      }
      if has {
        var reg := GetRegister(regs, i);
        if size == LongSize {
          data := data + [reg / 0x100_0000 % 0x100, reg / 0x1_0000 % 0x100, reg / 0x100 % 0x100, reg % 0x100];
          LongByByte(reg);
        } else {
          data := data + [reg / 0x100 % 0x100, reg % 0x100];
          WordByByte(reg);
        }
      }
    }
  }

  lemma LongByByte(v: Long)
    ensures LongBytes(v) == [v / 0x100_0000 % 0x100, v / 0x1_0000 % 0x100, v / 0x100 % 0x100, v % 0x100]
  {
    var hi, lo := v / 0x1_0000, v % 0x1_0000;
    DivUnique(v, 0x100_0000, hi / 0x100, hi % 0x100 * 0x1_0000 + lo);
    LowBytes(v, hi, lo);
  }

  lemma LowBytes(v: Long, hi: Word, lo: Word)
    requires v == hi * 0x1_0000 + lo
    ensures v / 0x100 % 0x100 == lo / 0x100 && v % 0x100 == lo % 0x100
  {
    DivUnique(v, 0x100, hi * 0x100 + lo / 0x100, lo % 0x100);
    DivUnique(hi * 0x100 + lo / 0x100, 0x100, hi, lo / 0x100);
  }

  lemma WordByByte(v: Long)
    ensures WordBytes(v % 0x1_0000) == [v / 0x100 % 0x100, v % 0x100]
  {
    LowBytes(v, v / 0x1_0000, v % 0x1_0000);
  }

  /** MOVEM list,-(An): the registers are collected before the address moves down. */
  method StoreMultiple(m: Machine, size: Size, mask: Mask, n: nat) returns (ok: bool)
    requires m.Valid() && size != ByteSize && n < 8
    modifies m.regs`usp, m.regs`ssp, m.regs.d, m.regs.a, m.ram.data
    ensures m.Valid()
    ensures var f := old(File(m.regs));
            var data := Stored(f, Reversed(mask), size, 16);
            var sp := MovedBy(f[8 + n], -Moved(n, |data|));
            && File(m.regs) == f[8 + n := sp]
            && ok == (data == [] || Pos(sp) + |data| <= RAM_SIZE)
            && m.ram.data[..] == if ok && data != [] then Written(old(m.ram.data[..]), Pos(sp), data)
                                 else old(m.ram.data[..])
    // on a stack inside the RAM the bytes end at the old pointer, and all above it stays
    ensures var f := old(File(m.regs));
            var data := Stored(f, Reversed(mask), size, 16);
            var top := Pos(f[8 + n]);
            data != [] && |data| <= top <= RAM_SIZE ==>
              && ok && m.ram.data[top - |data|..top] == data
              && m.ram.data[top..] == old(m.ram.data[top..])
              && m.ram.data[..top - |data|] == old(m.ram.data[..top - |data|])
  {
    hide Stored, Count, Adjustment, MovedBy, Pos, Written, File;
    var data := Gather(m.regs, size, mask, true);
    ReverseTwice(mask);
    AdjustmentIsLength(n, File(m.regs), Reversed(mask), size);
    StoreEnds(File(m.regs)[8 + n], m.ram.data[..], data);
    var address := GetRegister(m.regs, 8 + n);
    address := MovedBy(address, -Adjustment(n, size, Count(mask, 16)));
    SetRegister(m.regs, 8 + n, address);
    if data == [] {
      return true;
    }
    if Pos(address) + |data| > RAM_SIZE {
      return false;
    }
    m.ram.Write(address, data);
    ok := true;
  }

  /** Bytes written below a pointer into the RAM end there. */
  lemma StoreEnds(pointer: Long, ram: seq<Byte>, data: seq<Byte>)
    requires |ram| == RAM_SIZE
    ensures var top := Pos(pointer);
            |data| <= top <= RAM_SIZE ==>
              var sp := MovedBy(pointer, -|data|);
              && Pos(sp) + |data| == top
              && Written(ram, Pos(sp), data)[Pos(sp)..top] == data
              && Written(ram, Pos(sp), data)[top..] == ram[top..]
              && Written(ram, Pos(sp), data)[..Pos(sp)] == ram[..Pos(sp)]
  {
    if |data| <= Pos(pointer) <= RAM_SIZE {
      PosMoved(pointer, |data|);
      hide Pos, MovedBy;
      WrittenParts(ram, Pos(MovedBy(pointer, -|data|)), data);
    }
  }

  lemma PosMoved(pointer: Long, n: int)
    requires 0 <= n <= Pos(pointer)
    ensures Pos(MovedBy(pointer, -n)) + n == Pos(pointer)
  {
  }

  lemma WrittenParts(ram: seq<Byte>, at: nat, data: seq<Byte>)
    requires at + |data| <= |ram|
    ensures var w := Written(ram, at, data);
            w[at..at + |data|] == data && w[at + |data|..] == ram[at + |data|..] && w[..at] == ram[..at]
  {
  }

  lemma LoadNothing(file: seq<Long>, data: seq<Byte>, mask: Mask, size: Size, pointer: nat)
    requires |file| == 16 && |data| == Offset(mask, size, 16)
    ensures Loaded(file, data, mask, size, pointer, 0) == file
    ensures Offset(mask, size, 0) == 0
  {
  }

  lemma LoadOneMore(file: seq<Long>, data: seq<Byte>, mask: Mask, size: Size, pointer: nat, i: nat)
    requires |file| == 16 && |data| == Offset(mask, size, 16) && i < 16
    ensures Offset(mask, size, i + 1) == Offset(mask, size, i) + (if mask[i] then size.Bytes() else 0)
    ensures mask[i] ==> Offset(mask, size, i) + size.Bytes() <= |data|
    ensures Loaded(file, data, mask, size, pointer, i + 1)
            == if mask[i] && i != pointer then
                 Loaded(file, data, mask, size, pointer, i)
                 [i := FromRegisterBytes(data[Offset(mask, size, i)..][..size.Bytes()], size)]
               else Loaded(file, data, mask, size, pointer, i)
  {
    hide FromRegisterBytes, Size.Bytes;
    OneOffset(mask, size, i);
    if mask[i] {
      OffsetBound(mask, size, i);
    }
  }

  lemma OneOffset(mask: Mask, size: Size, i: nat)
    requires i < 16
    ensures Offset(mask, size, i + 1) == Offset(mask, size, i) + (if mask[i] then size.Bytes() else 0)
  {
    match size
    case ByteSize =>
    case WordSize =>
    case LongSize =>
  }

  /** MOVEM (An)+,list. */
  method LoadMultiple(m: Machine, size: Size, mask: Mask, n: nat) returns (ok: bool)
    requires m.Valid() && size != ByteSize && n < 8
    modifies m.regs`usp, m.regs`ssp, m.regs.d, m.regs.a
    ensures m.Valid()
    ensures var f := old(File(m.regs));
            var p := Pos(f[8 + n]);
            && ok == (p + Offset(mask, size, 16) <= RAM_SIZE)
            && (ok ==> File(m.regs)
                       == Loaded(f, m.ram.data[p..p + Offset(mask, size, 16)], mask, size, 8 + n, 16)
                          [8 + n := MovedBy(f[8 + n], Moved(n, Offset(mask, size, 16)))])
            && (!ok ==> File(m.regs) == f)
  {
    hide Loaded, FromRegisterBytes, Size.Bytes, Count, Adjustment, Moved, File, MovedBy;
    AdjustmentIsLength(n, File(m.regs), mask, size);
    var address := GetRegister(m.regs, 8 + n);
    var length := size.Bytes() * Count(mask, 16);
    if Pos(address) + length > RAM_SIZE {
      return false;
    }
    var data := m.ram.Read(address, length);
    var curPos := 0;
    ghost var f := File(m.regs);
    LoadNothing(f, data, mask, size, 8 + n);
    for i := 0 to 16
      invariant m.Valid()
      invariant curPos == Offset(mask, size, i)
      invariant File(m.regs) == Loaded(f, data, mask, size, 8 + n, i)
    {
      LoadOneMore(f, data, mask, size, 8 + n, i);
      if mask[i] {
        OffsetBound(mask, size, i);
        if i < 8 || i - 8 != n {
          var bytes := data[curPos..][..size.Bytes()];
          SetRegister(m.regs, i, FromRegisterBytes(bytes, size));
        }
        curPos := curPos + size.Bytes();
      }
    }
    SetRegister(m.regs, 8 + n, MovedBy(address, Adjustment(n, size, Count(mask, 16))));
    ok := true;
  }

  // ---------------------------------------------------------------- round trip

  lemma {:induction false} CountReversed(mask: Mask, n: nat)
    requires n <= 16
    ensures Count(mask, 16) == Count(mask, 16 - n) + Count(Reversed(mask), n)
  {
    if n > 0 {
      CountReversed(mask, n - 1);
    }
  }

  /** Loading what was stored gives every listed register but the pointer its stored value
      (sign-extended from a word), whatever the registers hold in between, and leaves the
      unlisted ones alone. */
  lemma LoadsWhatWasStored(f: seq<Long>, g: seq<Long>, mask: Mask, size: Size, pointer: nat)
    requires |f| == |g| == 16 && size != ByteSize
    ensures |Stored(f, mask, size, 16)| == Offset(mask, size, 16)
    ensures Loaded(g, Stored(f, mask, size, 16), mask, size, pointer, 16)
            == seq(16, i requires 0 <= i < 16 => if mask[i] && i != pointer then Narrowed(f[i], size) else g[i])
  {
    StoredLength(f, mask, size, 16);
    var loaded := Loaded(g, Stored(f, mask, size, 16), mask, size, pointer, 16);
    forall i | 0 <= i < 16 && mask[i] && i != pointer
      ensures loaded[i] == Narrowed(f[i], size)
    {
      StoredSlice(f, mask, size, i, 16);
      RegisterRoundTrip(f[i], size);
    }
  }

  lemma ReverseTwice(mask: Mask)
    ensures Reversed(Reversed(mask)) == mask
    ensures Count(Reversed(mask), 16) == Count(mask, 16)
  {
    CountReversed(mask, 16);
  }

  lemma WrittenThere(ram: seq<Byte>, p: nat, data: seq<Byte>)
    requires p + |data| <= |ram|
    ensures Written(ram, p, data)[p..p + |data|] == data
  {
  }

  lemma MovedBack(a: Long, n: int)
    ensures MovedBy(MovedBy(a, -n), n) == a
  {
  }

  /** The two instructions around any change g of the other registers: for every list, size
      and pointer register, the pointer comes back, every other listed register is restored,
      and the unlisted ones keep what they were given in between. */
  lemma SaveAndRestore(f: seq<Long>, g: seq<Long>, ram: seq<Byte>, ram': seq<Byte>, mask: Mask, size: Size, n: nat)
    requires |f| == |g| == 16 && |ram| == |ram'| == RAM_SIZE && size != ByteSize && n < 8
    // what StoreMultiple leaves for the reversed mask
    requires var data := Stored(f, Reversed(Reversed(mask)), size, 16);
             g[8 + n] == MovedBy(f[8 + n], -Moved(n, |data|))
    requires var data := Stored(f, Reversed(Reversed(mask)), size, 16);
             var p := Pos(g[8 + n]);
             p + |data| <= RAM_SIZE && ram'[p..p + |data|] == Written(ram, p, data)[p..p + |data|]
    // what LoadMultiple makes of it
    ensures var p := Pos(g[8 + n]);
            var length := Offset(mask, size, 16);
            && p + length <= RAM_SIZE
            && Loaded(g, ram'[p..p + length], mask, size, 8 + n, 16)
                 [8 + n := MovedBy(g[8 + n], Moved(n, length))]
               == seq(16, i requires 0 <= i < 16 =>
                    if i == 8 + n then f[i] else if mask[i] then Narrowed(f[i], size) else g[i])
  {
    hide Loaded, Stored, Narrowed, Moved, Written, Pos, MovedBy, Count, Offset, Reversed;
    ReverseTwice(mask);
    LoadsWhatWasStored(f, g, mask, size, 8 + n);
    var data := Stored(f, mask, size, 16);
    var p := Pos(g[8 + n]);
    WrittenThere(ram, p, data);
    MovedBack(f[8 + n], Moved(n, |data|));
  }
}
