/** The memory bus (src/sega/memory/bus_device.cpp): devices in the order they were added, the
    first one whose range contains the masked start address serves the whole transfer. */
module Bus {
  import opened Words
  import opened Ram

  /** A device that reads like memory: the ROM leaves the buffer alone past its end
      (src/sega/memory/rom_device.cpp), a RAM serves its own range. */
  datatype Device = RomDevice(rom: seq<Byte>) | RamDevice(base: Long, data: seq<Byte>) {
    function ByteAt(addr: nat): Option<Byte> {
      match this
      case RomDevice(rom) => if addr < |rom| then Some(rom[addr]) else None
      case RamDevice(base, data) => if base <= addr < base + |data| then Some(data[addr - base]) else None
    }

    function ByteOr(addr: nat, otherwise: Byte): Byte {
      match ByteAt(addr)
      case Some(b) => b
      case None => otherwise
    }
  }

  datatype MappedDevice = MappedDevice(begin: Long, end: Long, device: Device) {
    predicate Contains(addr: nat) {
      begin <= addr <= end
    }
  }

  /** The specification of the lookup: the first mapping that contains the address. */
  function FirstMatch(devices: seq<MappedDevice>, addr: nat): (r: Option<Device>)
    ensures r.None? <==> forall i :: 0 <= i < |devices| ==> !devices[i].Contains(addr)
  {
    if devices == [] then None
    else if devices[0].Contains(addr) then Some(devices[0].device)
    else
      var r := FirstMatch(devices[1..], addr);
      assert forall i :: 0 < i < |devices| ==> devices[i] == devices[1..][i - 1];
      r
  }

  /** A buffer after a device filled it from the given address. */
  function Filled(device: Device, addr: nat, buffer: seq<Byte>): (r: seq<Byte>)
    ensures |r| == |buffer|
  {
    seq(|buffer|, k requires 0 <= k < |buffer| => device.ByteOr(addr + k, buffer[k]))
  }

  /** A read through the bus; None is the unmapped-read error. */
  function Fetch(devices: seq<MappedDevice>, addr: nat, buffer: seq<Byte>): (r: Option<seq<Byte>>)
    ensures r.Some? ==> |r.value| == |buffer|
  {
    var masked := addr % ADDRESS_MODULUS;
    match FirstMatch(devices, masked)
    case Some(device) => Some(Filled(device, masked, buffer))
    case None => None
  }

  /** A RAM fills a buffer with its bytes. */
  lemma FilledFromRam(base: Long, data: seq<Byte>, addr: nat, buffer: seq<Byte>)
    requires base <= addr && addr + |buffer| <= base + |data|
    ensures Filled(RamDevice(base, data), addr, buffer) == data[addr - base..addr - base + |buffer|]
  {
    var filled, part := Filled(RamDevice(base, data), addr, buffer), data[addr - base..addr - base + |buffer|];
    forall k | 0 <= k < |buffer|
      ensures filled[k] == part[k]
    {
    }
  }

  /** A RAM mapped over its range, both ends included, serves exactly the addresses in it, and
      reading gives its bytes. */
  lemma RamServesItsRange(base: Long, data: seq<Byte>, addr: nat, buffer: seq<Byte>)
    requires |data| > 0 && base + |data| <= ADDRESS_MODULUS && addr + |buffer| <= ADDRESS_MODULUS
    ensures var ram := MappedDevice(base, base + |data| - 1, RamDevice(base, data));
            && (FirstMatch([ram], addr).Some? <==> base <= addr < base + |data|)
            && (base <= addr < addr + |buffer| <= base + |data| ==>
                  Fetch([ram], addr, buffer) == Some(data[addr - base..addr - base + |buffer|]))
  {
    if base <= addr < addr + |buffer| <= base + |data| {
      FilledFromRam(base, data, addr, buffer);
      hide Filled;
    }
  }

  /** A ROM gives the bytes of its image, and leaves the buffer alone behind the end. */
  lemma RomServesItsImage(rom: seq<Byte>, end: Long, addr: nat, buffer: seq<Byte>)
    requires addr <= end && addr < ADDRESS_MODULUS
    ensures var n := if addr >= |rom| then 0 else if addr + |buffer| <= |rom| then |buffer| else |rom| - addr;
            && 0 <= n <= |buffer|
            && Fetch([MappedDevice(0, end, RomDevice(rom))], addr, buffer)
               == Some((if n == 0 then [] else rom[addr..addr + n]) + buffer[n..])
  {
    var n := if addr >= |rom| then 0 else if addr + |buffer| <= |rom| then |buffer| else |rom| - addr;
    assert Filled(RomDevice(rom), addr, buffer) == (if n == 0 then [] else rom[addr..addr + n]) + buffer[n..];
  }

  class BusDevice {
    var mappedDevices: seq<MappedDevice>

    constructor ()
      ensures mappedDevices == []
    {
      mappedDevices := [];
    }

    method AddDevice(begin: Long, end: Long, device: Device)
      modifies this
      ensures mappedDevices == old(mappedDevices) + [MappedDevice(begin, end, device)]
    {
      mappedDevices := mappedDevices + [MappedDevice(begin, end, device)];
    }

    method FindByAddr(addr: nat) returns (r: Option<Device>)
      ensures r == FirstMatch(mappedDevices, addr)
    {
      for i := 0 to |mappedDevices|
        invariant FirstMatch(mappedDevices, addr) == FirstMatch(mappedDevices[i..], addr)
      {
        if mappedDevices[i].Contains(addr) {
          return Some(mappedDevices[i].device);
        }
        assert mappedDevices[i..][1..] == mappedDevices[i + 1..];
      }
      r := None;
    }

    /** Read into a part of an array: false for an unmapped address. */
    method Read(addr: nat, buffer: array<Byte>, at: nat, n: nat) returns (ok: bool)
      requires at + n <= buffer.Length
      modifies buffer
      ensures ok == Fetch(mappedDevices, addr, old(buffer[at..at + n])).Some?
      ensures buffer[..] == if ok
                            then Written(old(buffer[..]), at, Fetch(mappedDevices, addr, old(buffer[at..at + n])).value)
                            else old(buffer[..])
    {
      var masked := addr % ADDRESS_MODULUS;
      var device := FindByAddr(masked);
      if device.None? {
        return false;
      }
      ghost var filled := Filled(device.value, masked, buffer[at..at + n]);
      for k := 0 to n
        invariant forall j :: 0 <= j < buffer.Length ==>
                    buffer[j] == if at <= j < at + k then filled[j - at] else old(buffer[j])
      {
        var byte := device.value.ByteAt(masked + k);
        if byte.Some? {
          buffer[at + k] := byte.value;
        }
      }
      ok := true;
    }
  }

  /** Devices added earlier win: adding one changes only addresses no earlier one contains. */
  lemma {:induction false} EarlierDevicesWin(devices: seq<MappedDevice>, added: MappedDevice, addr: nat)
    ensures FirstMatch(devices + [added], addr)
            == if FirstMatch(devices, addr).Some? then FirstMatch(devices, addr)
               else if added.Contains(addr) then Some(added.device) else None
  {
    if devices == [] {
      assert (devices + [added])[1..] == [];
    } else {
      assert (devices + [added])[1..] == devices[1..] + [added];
      EarlierDevicesWin(devices[1..], added, addr);
    }
  }
}
