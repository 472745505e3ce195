/**
 The port-I/O dispatch table and the relocation of a device's I/O base-address register over it.
 */
module PciBar {
  import opened Arith

  const PORTS := 0xFFFF
  const BAR_TYPE_IO := 1

  /** A handler is named by a number; the null pointer is 0. */
  const NULL := 0

  datatype Port = Free | Bound(write: nat, read: nat)

  /** The I/O window of a device: its base, its size, the ports it leaves alone, its handlers. */
  datatype Bar = Bar(addr: nat, size: nat, mask: set<nat>, write: nat, read: nat)

  /** Port i of the window is dispatched to the device. */
  predicate Unmasked(b: Bar, i: nat) {
    i < b.size && i !in b.mask
  }

  predicate InWindow(b: Bar, base: nat, steps: nat, p: int) {
    base <= p < base + steps && Unmasked(b, p - base)
  }

  /** The device has its window mapped. */
  ghost predicate Mapped(ports: seq<Port>, b: Bar) {
    b.addr != 0 ==> forall p: nat | InWindow(b, b.addr, b.size, p) :: p < |ports| && ports[p].Bound?
  }

  /** The first steps ports of the window moved to a new base: the new ones bound to the device, the old ones
      free, every other one untouched. */
  function Moved(ports: seq<Port>, b: Bar, base: nat, steps: nat): (r: seq<Port>)
    ensures |r| == |ports|
  {
    seq(|ports|, p requires 0 <= p < |ports| =>
      if InWindow(b, base, steps, p) then Bound(b.write, b.read)
      else if b.addr != 0 && InWindow(b, b.addr, steps, p) then Free
      else ports[p])
  }

  /** New port i is free when its turn comes: unmapped before, or an old port that has already been given up. */
  predicate Available(ports: seq<Port>, b: Bar, base: nat, i: nat) {
    base + i < |ports| && (ports[base + i].Free? || (b.addr != 0 && InWindow(b, b.addr, i + 1, base + i)))
  }

  /** Every new port is. */
  ghost predicate Relocatable(ports: seq<Port>, b: Bar, base: nat, steps: nat) {
    forall i | 0 <= i < steps && Unmasked(b, i) :: Available(ports, b, base, i)
  }

  /** A base whose ports are all unmapped, or that is lower than the old one or equal to it, is one. */
  lemma RelocatableWhen(ports: seq<Port>, b: Bar, base: nat)
    requires Mapped(ports, b) && base + b.size <= |ports|
    requires forall p: nat | InWindow(b, base, b.size, p) ::
               ports[p].Free? || (b.addr != 0 && base <= b.addr && InWindow(b, b.addr, b.size, p))
    ensures Relocatable(ports, b, base, b.size)
  {
    forall i | 0 <= i < b.size && Unmasked(b, i)
      ensures Available(ports, b, base, i)
    {
      assert InWindow(b, base, b.size, base + i);
    }
  }

  lemma MovedSkip(ports: seq<Port>, b: Bar, base: nat, i: nat)
    requires !Unmasked(b, i)
    ensures Moved(ports, b, base, i + 1) == Moved(ports, b, base, i)
  {
  }

  /** One turn of the loop, after a prefix that went through: give up old port i, take new port i. */
  lemma MovedStep(ports: seq<Port>, b: Bar, base: nat, i: nat)
    requires Mapped(ports, b) && Unmasked(b, i) && Relocatable(ports, b, base, i)
    ensures b.addr != 0 ==> b.addr + i < |ports| && Moved(ports, b, base, i)[b.addr + i].Bound?
    ensures var given := if b.addr != 0 then Moved(ports, b, base, i)[b.addr + i := Free] else Moved(ports, b, base, i);
            && (base + i < |ports| && given[base + i].Free? <==> Available(ports, b, base, i))
            && (Available(ports, b, base, i) ==>
                  Moved(ports, b, base, i + 1) == given[base + i := Bound(b.write, b.read)])
  {
    if b.addr != 0 {
      assert InWindow(b, b.addr, b.size, b.addr + i);
      OldPortStays(ports, b, base, i);
    }
  }

  /** No new port taken so far is old port i: it was bound when its turn came, and had not been given up. */
  lemma OldPortStays(ports: seq<Port>, b: Bar, base: nat, i: nat)
    requires Mapped(ports, b) && Unmasked(b, i) && Relocatable(ports, b, base, i) && b.addr != 0
    ensures !InWindow(b, base, i, b.addr + i)
  {
    assert InWindow(b, b.addr, b.size, b.addr + i);
    var j := b.addr + i - base;
    if 0 <= j < i {
      assert Unmasked(b, j) ==> Available(ports, b, base, j);
    }
  }

  /** A completed relocation leaves the window mapped at the new base. */
  lemma MovedIsMapped(ports: seq<Port>, b: Bar, base: nat)
    requires Relocatable(ports, b, base, b.size)
    ensures Mapped(Moved(ports, b, base, b.size), b.(addr := base))
  {
    var c := b.(addr := base);
    forall p: nat | InWindow(c, base, c.size, p)
      ensures p < |ports| && Moved(ports, b, base, b.size)[p].Bound?
    {
      assert Unmasked(b, p - base) && Available(ports, b, base, p - base);
    }
  }

  /** The first port of the window, from i on, that is dispatched. */
  function FirstUnmasked(b: Bar, i: nat): (f: nat)
    requires i <= b.size
    ensures i <= f <= b.size && (f < b.size ==> Unmasked(b, f)) && forall j | i <= j < f :: !Unmasked(b, j)
    decreases b.size - i
  {
    if i == b.size || Unmasked(b, i) then i else FirstUnmasked(b, i + 1)
  }

  /** The table after a zero base was written: only the first port is given up. */
  function Unbound(ports: seq<Port>, b: Bar): (r: seq<Port>)
    requires Mapped(ports, b)
    ensures |r| == |ports|
  {
    var f := FirstUnmasked(b, 0);
    if b.addr != 0 && f < b.size then
      assert InWindow(b, b.addr, b.size, b.addr + f);
      ports[b.addr + f := Free]
    else ports
  }

  /** A zero base unmaps the whole window if and only if the window has at most one dispatched port. */
  lemma UnboundIff(ports: seq<Port>, b: Bar)
    requires Mapped(ports, b) && b.addr != 0
    ensures (forall p: nat | InWindow(b, b.addr, b.size, p) :: Unbound(ports, b)[p].Free?)
            <==> forall i, j | Unmasked(b, i) && Unmasked(b, j) :: i == j
  {
    var f := FirstUnmasked(b, 0);
    if i, j :| Unmasked(b, i) && Unmasked(b, j) && i != j {
      var k := if i == f then j else i;
      assert InWindow(b, b.addr, b.size, b.addr + k);
      assert Unbound(ports, b)[b.addr + k].Bound?;
    } else {
      forall p: nat | InWindow(b, b.addr, b.size, p)
        ensures Unbound(ports, b)[p].Free?
      {
        assert Unmasked(b, p - b.addr);
        assert p - b.addr == f;
      }
    }
  }

  /** Byte i of a DWORD. */
  function ByteAt(value: nat, i: nat): nat {
    if i == 0 then value % 0x100 else ByteAt(value / 0x100, i - 1)
  }

  /** Byte i as an I/O base-address register keeps it. */
  function IoByte(value: nat, i: nat): nat {
    if i == 0 then ByteAt(value, 0) / 4 * 4 + BAR_TYPE_IO else ByteAt(value, i)
  }

  function Dword(b: seq<nat>): nat
    requires |b| == 4
  {
    b[0] + 0x100 * b[1] + 0x1_0000 * b[2] + 0x100_0000 * b[3]
  }

  lemma LowestByte(value: nat) returns (b: nat, q: nat)
    ensures b < 0x100 && value == b + 0x100 * q && ByteAt(value, 0) == b
    ensures forall i: nat :: ByteAt(value, i + 1) == ByteAt(q, i)
  {
    b, q := value % 0x100, value / 0x100;
  }

  lemma FourBytes(value: nat)
    requires value < 0x1_0000_0000
    ensures value == ByteAt(value, 0) + 0x100 * ByteAt(value, 1) + 0x1_0000 * ByteAt(value, 2)
                     + 0x100_0000 * ByteAt(value, 3)
    ensures ByteAt(value, 0) < 0x100
  {
    hide ByteAt;
    var b0, q1 := LowestByte(value);
    var b1, q2 := LowestByte(q1);
    var b2, q3 := LowestByte(q2);
    var b3, q4 := LowestByte(q3);
    assert ByteAt(value, 0 + 1) == b1;
    assert ByteAt(value, 1 + 1) == ByteAt(q1, 0 + 1) == b2;
    assert ByteAt(value, 2 + 1) == ByteAt(q1, 1 + 1) == ByteAt(q2, 0 + 1) == b3;
  }

  lemma AlignedValue(b0: nat, rest: nat)
    requires b0 < 0x100
    ensures (b0 + 0x100 * rest) / 4 * 4 == b0 / 4 * 4 + 0x100 * rest
  {
    DivMod(b0 + 0x100 * rest, b0 / 4 + 0x40 * rest, 4, b0 % 4);
  }

  /** The register reads back as the base with the I/O type bit. */
  lemma RegisterReads(value: nat)
    requires value < 0x1_0000_0000
    ensures Dword(seq(4, i requires 0 <= i < 4 => IoByte(value, i))) == value / 4 * 4 + BAR_TYPE_IO
  {
    FourBytes(value);
    hide ByteAt;
    var rest := ByteAt(value, 1) + 0x100 * ByteAt(value, 2) + 0x1_0000 * ByteAt(value, 3);
    AlignedValue(ByteAt(value, 0), rest);
    assert value == ByteAt(value, 0) + 0x100 * rest;
  }

  /** The sizing probe: the register then reads as the complement of size - 1, with the type bit. */
  function SizeMask(size: nat): nat
    requires size <= 64
  {
    (0x1_0000_0000 - size) % 0x1_0000_0000
  }

  /** A guest that complements the probed register, without its type bits, and adds one finds the size if and
      only if the size is a multiple of four. */
  lemma ProbeFindsSizeIff(size: nat)
    requires 0 < size <= 64
    ensures 0x1_0000_0000 - SizeMask(size) / 4 * 4 == size <==> size % 4 == 0
  {
  }

  class Bus {
    const bitmap: array<bool>
    const writeHandlers: array<nat>
    const readHandlers: array<nat>

    /** The table is consistent: a port without its bit has no handlers. */
    ghost predicate Valid()
      reads bitmap, writeHandlers, readHandlers
    {
      && bitmap.Length == PORTS && writeHandlers.Length == PORTS && readHandlers.Length == PORTS
      && writeHandlers != readHandlers
      && forall p | 0 <= p < PORTS && !bitmap[p] :: writeHandlers[p] == readHandlers[p] == NULL
    }

    ghost function PortAt(p: nat): Port
      requires p < bitmap.Length && p < writeHandlers.Length && p < readHandlers.Length
      reads bitmap, writeHandlers, readHandlers
    {
      if bitmap[p] then Bound(writeHandlers[p], readHandlers[p]) else Free
    }

    ghost function Ports(): (s: seq<Port>)
      requires Valid()
      reads bitmap, writeHandlers, readHandlers
      ensures |s| == PORTS
    {
      seq(PORTS, p requires 0 <= p < PORTS && Valid() reads bitmap, writeHandlers, readHandlers => PortAt(p))
    }

    constructor ()
      ensures Valid() && fresh(bitmap) && fresh(writeHandlers) && fresh(readHandlers)
      ensures forall p | 0 <= p < PORTS :: Ports()[p] == Free
    {
      bitmap := new bool[PORTS](_ => false);
      writeHandlers := new nat[PORTS](_ => NULL);
      readHandlers := new nat[PORTS](_ => NULL);
    }

    /** RegisterPortIoHandler; it ends the process when it is not ok. */
    method Register(address: nat, write: nat, read: nat) returns (ok: bool)
      requires Valid()
      modifies bitmap, writeHandlers, readHandlers
      ensures Valid() && (ok <==> address < PORTS && old(Ports())[address].Free?)
      ensures Ports() == if ok then old(Ports())[address := Bound(write, read)] else old(Ports())
    {
      if address >= PORTS || bitmap[address] {
        return false;
      }
      bitmap[address] := true;
      writeHandlers[address] := write;
      readHandlers[address] := read;
      ok := true;
    }

    /** RemovePortIoHandler; it ends the process when it is not ok. */
    method Remove(address: nat) returns (ok: bool)
      requires Valid()
      modifies bitmap, writeHandlers, readHandlers
      ensures Valid() && (ok <==> address < PORTS && old(Ports())[address].Bound?)
      ensures Ports() == if ok then old(Ports())[address := Free] else old(Ports())
    {
      if address >= PORTS || !bitmap[address] {
        return false;
      }
      bitmap[address] := false;
      writeHandlers[address] := NULL;
      readHandlers[address] := NULL;
      ok := true;
    }
  }

  /** A PCI function with one I/O base-address register. */
  class Device {
    const bus: Bus
    const conf: array<nat>

    var bar: Bar

    ghost predicate Valid()
      reads this, bus.bitmap, bus.writeHandlers, bus.readHandlers
    {
      && conf.Length == 0x100 && conf != bus.writeHandlers && conf != bus.readHandlers
      && bus.Valid() && Mapped(bus.Ports(), bar) && bar.size <= 64
    }

    constructor (bus: Bus, bar: Bar)
      requires bus.Valid() && bar.addr == 0 && bar.size <= 64
      ensures Valid() && this.bus == bus && this.bar == bar && fresh(conf)
    {
      this.bus := bus;
      this.bar := bar;
      conf := new nat[0x100](_ => 0);
    }

    /** The bytes of a configuration write, and whether one of them changes. */
    method StoreBytes(offset: nat, value: nat, length: nat) returns (changed: bool)
      requires offset + length < 0xFF && conf.Length == 0x100
      modifies conf
      ensures changed <==> exists i | 0 <= i < length :: old(conf[offset + i]) != IoByte(value, i)
      ensures forall i | 0 <= i < length :: conf[offset + i] == IoByte(value, i)
      ensures forall k | 0 <= k < 0x100 && !(offset <= k < offset + length) :: conf[k] == old(conf[k])
    {
      changed := false;
      for i := 0 to length
        invariant changed <==> exists j | 0 <= j < i :: old(conf[offset + j]) != IoByte(value, j)
        invariant forall j | 0 <= j < i :: conf[offset + j] == IoByte(value, j)
        invariant forall k | 0 <= k < 0x100 && !(offset <= k < offset + i) :: conf[k] == old(conf[k])
      {
        if conf[offset + i] != IoByte(value, i) {
          changed := true;
        }
        conf[offset + i] := IoByte(value, i);
      }
    }

    /** The loop over the window, for a base other than zero: the process ends in it when it is not ok. */
    method Relocate(base: nat) returns (ok: bool)
      requires Valid()
      modifies bus.bitmap, bus.writeHandlers, bus.readHandlers
      ensures bus.Valid() && (ok <==> Relocatable(old(bus.Ports()), bar, base, bar.size))
      ensures ok ==> bus.Ports() == Moved(old(bus.Ports()), bar, base, bar.size)
    {
      ghost var ports := bus.Ports();
      for i := 0 to bar.size
        invariant bus.Valid() && Relocatable(ports, bar, base, i) && bus.Ports() == Moved(ports, bar, base, i)
      {
        hide Moved, Available, InWindow, Mapped;
        if i in bar.mask {
          MovedSkip(ports, bar, base, i);
          continue;
        }
        MovedStep(ports, bar, base, i);
        if bar.addr != 0 {
          var removed := bus.Remove(bar.addr + i);
          assert removed;
        }
        ok := bus.Register(base + i, bar.write, bar.read);
        assert ok <==> Available(ports, bar, base, i);
        if !ok {
          return;
        }
      }
      ok := true;
    }

    /** The loop over the window, for a zero base: it stops at the first dispatched port. */
    method Unmap() returns (stopped: bool)
      requires Valid()
      modifies bus.bitmap, bus.writeHandlers, bus.readHandlers
      ensures bus.Valid() && bus.Ports() == Unbound(old(bus.Ports()), bar)
      ensures stopped <==> FirstUnmasked(bar, 0) < bar.size
    {
      for i := 0 to bar.size
        invariant Valid() && bus.Ports() == old(bus.Ports()) && FirstUnmasked(bar, 0) == FirstUnmasked(bar, i)
      {
        if i in bar.mask {
          continue;
        }
        if bar.addr != 0 {
          assert InWindow(bar, bar.addr, bar.size, bar.addr + i);
          var removed := bus.Remove(bar.addr + i);
          assert removed;
        }
        return true;
      }
      stopped := false;
    }

    ghost predicate Changes(offset: nat, value: nat, length: nat)
      requires offset + length < 0xFF && conf.Length == 0x100
      reads conf
    {
      exists i | 0 <= i < length :: conf[offset + i] != IoByte(value, i)
    }

    /** The register shows the base the window is mapped at. */
    ghost predicate Synced(offset: nat)
      requires offset + 4 < 0xFF && conf.Length == 0x100
      reads this, conf
    {
      Dword(conf[offset..offset + 4]) == bar.addr + BAR_TYPE_IO
    }

    /** The I/O arm of PciWriteConfHandler. The process ends when it is not ok. */
    method WriteIoBar(offset: nat, value: nat, length: nat) returns (ok: bool)
      requires Valid() && length <= 4 && offset + 4 < 0xFF && value < 0x1_0000_0000
      modifies `bar, conf, bus.bitmap, bus.writeHandlers, bus.readHandlers
      ensures ok ==> Valid()
      ensures !old(Changes(offset, value, length)) || value == 0xFFFF_FFFF ==>
                ok && bar == old(bar) && bus.Ports() == old(bus.Ports())
      ensures old(Changes(offset, value, length)) && value == 0xFFFF_FFFF ==>
                Dword(conf[offset..offset + 4]) == SizeMask(bar.size) / 4 * 4 + BAR_TYPE_IO
      ensures old(Changes(offset, value, length)) && value < 4 ==>
                && ok && bar == old(bar).(addr := 0) && bus.Ports() == Unbound(old(bus.Ports()), old(bar))
                && (FirstUnmasked(bar, 0) < bar.size ==> Dword(conf[offset..offset + 4]) == BAR_TYPE_IO)
      ensures old(Changes(offset, value, length)) && 4 <= value < 0xFFFF_FFFF ==>
                var base := value / 4 * 4;
                && (ok <==> Relocatable(old(bus.Ports()), old(bar), base, old(bar.size)))
                && (ok ==> && bar == old(bar).(addr := base)
                           && bus.Ports() == Moved(old(bus.Ports()), old(bar), base, bar.size))
      ensures 4 <= value < 0xFFFF_FFFF ==> forall i | 0 <= i < length :: conf[offset + i] == IoByte(value, i)
      ensures forall k | 0 <= k < 0x100 && !(offset <= k < offset + 4) :: conf[k] == old(conf[k])
      ensures ok && length == 4 && value != 0xFFFF_FFFF && old(Synced(offset) || Changes(offset, value, length)) ==>
                Synced(offset) && bar.addr == value / 4 * 4
    {
      hide Moved, Relocatable, Unbound, Mapped, IoByte, ByteAt;
      ok := true;
      var changed := StoreBytes(offset, value, length);
      if length == 4 {
        RegisterReads(value);
        assert conf[offset..offset + 4] == seq(4, i requires 0 <= i < 4 => IoByte(value, i));
      }
      if !changed {
        return;
      }
      if value == 0xFFFF_FFFF {
        StoreDword(offset, SizeMask(bar.size));
        return;
      }
      var base := value / 4 * 4;
      if base == 0 {
        ZeroBase(offset);
        return;
      }
      ghost var bytes := conf[offset..offset + 4];
      ok := MoveTo(base);
      assert conf[offset..offset + 4] == bytes;
    }

    /** The relocation, with the register's new base. */
    method MoveTo(base: nat) returns (ok: bool)
      requires Valid()
      modifies `bar, bus.bitmap, bus.writeHandlers, bus.readHandlers
      ensures bus.Valid() && (ok <==> Relocatable(old(bus.Ports()), old(bar), base, old(bar).size))
      ensures ok ==> && Valid() && bar == old(bar).(addr := base)
                     && bus.Ports() == Moved(old(bus.Ports()), old(bar), base, bar.size)
      ensures !ok ==> bar == old(bar)
    {
      hide Moved, Relocatable, Mapped;
      ghost var ports := bus.Ports();
      ok := Relocate(base);
      if ok {
        MovedIsMapped(ports, bar, base);
        bar := bar.(addr := base);
      }
    }

    /** A zero base: the register is cleared with the window, unless the window has no dispatched port. */
    method ZeroBase(offset: nat)
      requires Valid() && offset + 4 < 0xFF
      modifies `bar, conf, bus.bitmap, bus.writeHandlers, bus.readHandlers
      ensures Valid() && bar == old(bar).(addr := 0) && bus.Ports() == Unbound(old(bus.Ports()), old(bar))
      ensures FirstUnmasked(bar, 0) < bar.size ==> Dword(conf[offset..offset + 4]) == BAR_TYPE_IO
      ensures FirstUnmasked(bar, 0) == bar.size ==> conf[offset..offset + 4] == old(conf[offset..offset + 4])
      ensures forall k | 0 <= k < 0x100 && !(offset <= k < offset + 4) :: conf[k] == old(conf[k])
    {
      hide Unbound;
      SameWindow(bar);
      var stopped := Unmap();
      assert conf[offset..offset + 4] == old(conf[offset..offset + 4]);
      bar := bar.(addr := 0);
      if stopped {
        StoreDword(offset, 0);
      }
      MapsNothing(bus.Ports(), bar);
    }

    /** The register's four bytes, with the I/O type bit. */
    method StoreDword(offset: nat, value: nat)
      requires offset + 4 < 0xFF && conf.Length == 0x100 && value < 0x1_0000_0000
      modifies conf
      ensures Dword(conf[offset..offset + 4]) == value / 4 * 4 + BAR_TYPE_IO
      ensures forall k | 0 <= k < 0x100 && !(offset <= k < offset + 4) :: conf[k] == old(conf[k])
    {
      for i := 0 to 4
        invariant forall j | 0 <= j < i :: conf[offset + j] == IoByte(value, j)
        invariant forall k | 0 <= k < 0x100 && !(offset <= k < offset + 4) :: conf[k] == old(conf[k])
      {
        conf[offset + i] := IoByte(value, i);
      }
      RegisterReads(value);
      assert conf[offset..offset + 4] == seq(4, i requires 0 <= i < 4 => IoByte(value, i));
    }
  }

  lemma SameWindow(b: Bar)
    ensures FirstUnmasked(b.(addr := 0), 0) == FirstUnmasked(b, 0)
  {
    assert forall i :: Unmasked(b.(addr := 0), i) <==> Unmasked(b, i);
  }

  lemma MapsNothing(ports: seq<Port>, b: Bar)
    requires b.addr == 0
    ensures Mapped(ports, b)
  {
  }
}
