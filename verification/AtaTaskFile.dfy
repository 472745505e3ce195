/**
 Reads named by the task-file registers: which sector an address stands for, in cylinders, heads and sectors or as a
 number in base 256, and which bytes a READ command returns.
 */
module AtaTaskFile {
  import opened Arith
  import opened AtaAddress
  import opened Ata
  import opened Bytes
  import opened Widths

  // ----- cylinders, heads and sectors

  /** The registers name a sector of the geometry: 16 heads and 63 sectors, counted from 1. */
  predicate InGeometry(a: Address) {
    Registers(a) && !a.lba && a.head < 16 && 1 <= a.sector <= 63
  }

  lemma ChsValue(a: Address)
    requires InGeometry(a)
    ensures Linear(a) == (a.cylinder * 16 + a.head) * 63 + (a.sector - 1)
    ensures Linear(a) == a.cylinder * 1008 + (a.head * 63 + a.sector - 1) && a.head * 63 + a.sector - 1 < 1008
  {
    ChsSmall(a);
    hide Linear;
  }

  /** The first sector is 0; along a track, from track to track and from cylinder to cylinder, the next one is the
      next number. */
  lemma ChsOrder(a: Address, b: Address)
    requires InGeometry(a) && InGeometry(b)
    ensures a.cylinder == 0 && a.head == 0 && a.sector == 1 ==> Linear(a) == 0
    ensures b.cylinder == a.cylinder && b.head == a.head && b.sector == a.sector + 1 ==> Linear(b) == Linear(a) + 1
    ensures b.cylinder == a.cylinder && b.head == a.head + 1 && b.sector == 1 && a.sector == 63 ==>
              Linear(b) == Linear(a) + 1
    ensures b.cylinder == a.cylinder + 1 && b.head == 0 && b.sector == 1 && a.head == 15 && a.sector == 63 ==>
              Linear(b) == Linear(a) + 1
  {
    ChsValue(a);
    ChsValue(b);
    hide Linear;
  }

  /** Distinct places of the geometry are distinct sectors, */
  lemma ChsInjective(a: Address, b: Address)
    requires InGeometry(a) && InGeometry(b) && Linear(a) == Linear(b)
    ensures a.cylinder == b.cylinder && a.head == b.head && a.sector == b.sector
  {
    ChsValue(a);
    ChsValue(b);
    DivMod(Linear(a), a.cylinder, 1008, a.head * 63 + a.sector - 1);
    DivMod(Linear(a), b.cylinder, 1008, b.head * 63 + b.sector - 1);
    DivMod(a.head * 63 + a.sector - 1, a.head, 63, a.sector - 1);
    DivMod(a.head * 63 + a.sector - 1, b.head, 63, b.sector - 1);
  }

  /** and the first so many cylinders are exactly the first sectors. */
  lemma ChsCovers(cylinders: nat, l: nat) returns (a: Address)
    requires cylinders <= 0x1_0000
    ensures l < 16 * 63 * cylinders ==> InGeometry(a) && a.cylinder < cylinders && Linear(a) == l
    ensures forall b: Address | InGeometry(b) && b.cylinder < cylinders :: Linear(b) < 16 * 63 * cylinders
  {
    var (c, r) := (l / 1008, l % 1008);
    a := Address(false, false, 0, 0, 0, c, r / 63, r % 63 + 1);
    if l < 16 * 63 * cylinders {
      ChsValue(a);
    }
    forall b: Address | InGeometry(b) && b.cylinder < cylinders
      ensures Linear(b) < 16 * 63 * cylinders
    {
      ChsValue(b);
      hide Linear;
    }
  }

  // ----- logical block addresses

  /** A number in base 256, most significant digit first. */
  function Number(digits: seq<nat>): nat {
    if digits == [] then 0 else 256 * Number(digits[..|digits| - 1]) + digits[|digits| - 1]
  }

  /** The address bytes of the task file, the previously written ones first; the cylinder register is two of them. */
  function TaskFile(a: Address): seq<nat>
    requires Registers(a)
  {
    var low := [a.cylinder / 256, a.cylinder % 256, a.sector];
    if a.lba48 then [a.hobHighCylinder, a.hobLowCylinder, a.hobSector] + low else [a.head] + low
  }

  lemma NumberOfLast(digits: seq<nat>, d: nat)
    ensures Number(digits + [d]) == 256 * Number(digits) + d
  {
    assert (digits + [d])[..|digits|] == digits;
  }

  lemma NumberOfThree(digits: seq<nat>, c: nat, d: nat, e: nat)
    ensures Number(digits + [c, d, e]) == 0x100_0000 * Number(digits) + 0x1_0000 * c + 0x100 * d + e
  {
    NumberOfLast(digits, c);
    NumberOfLast(digits + [c], d);
    NumberOfLast(digits + [c] + [d], e);
    assert digits + [c] + [d] + [e] == digits + [c, d, e];
  }

  /** A logical block address is the number its bytes write. */
  lemma LbaValue(a: Address)
    requires Registers(a) && a.lba
    ensures Linear(a) == Number(TaskFile(a))
  {
    var (c, d, e) := (a.cylinder / 256, a.cylinder % 256, a.sector);
    assert 0x1_0000 * c + 0x100 * d == 0x100 * a.cylinder;
    if a.lba48 {
      NumberOfThree([a.hobHighCylinder, a.hobLowCylinder, a.hobSector], c, d, e);
      NumberOfThree([], a.hobHighCylinder, a.hobLowCylinder, a.hobSector);
      assert [] + [a.hobHighCylinder, a.hobLowCylinder, a.hobSector]
             == [a.hobHighCylinder, a.hobLowCylinder, a.hobSector];
    } else {
      NumberOfThree([a.head], c, d, e);
      NumberOfLast([], a.head);
      assert [] + [a.head] == [a.head];
    }
    hide Number;
  }

  /** Distinct bytes are distinct sectors. */
  lemma {:induction false} NumberInjective(x: seq<nat>, y: seq<nat>)
    requires |x| == |y| && Number(x) == Number(y)
    requires (forall i | 0 <= i < |x| :: x[i] < 256) && forall i | 0 <= i < |y| :: y[i] < 256
    ensures x == y
  {
    if x != [] {
      var (p, q, n) := (x[..|x| - 1], y[..|y| - 1], |x| - 1);
      DivMod(Number(x), Number(p), 256, x[n]);
      DivMod(Number(x), Number(q), 256, y[n]);
      NumberInjective(p, q);
      assert x == p + [x[n]] && y == q + [y[n]];
    }
  }

  lemma LbaInjective(a: Address, b: Address)
    requires Registers(a) && Registers(b) && a.lba && b.lba && a.lba48 == b.lba48 && Linear(a) == Linear(b)
    ensures TaskFile(a) == TaskFile(b)
  {
    LbaValue(a);
    LbaValue(b);
    hide Linear, Number;
    NumberInjective(TaskFile(a), TaskFile(b));
  }

  // ----- the READ command

  /** l is the sector the registers name. */
  predicate Names(a: Address, l: nat)
    requires Registers(a)
  {
    if a.lba then l == Number(TaskFile(a)) else l + 1 == (a.cylinder * 16 + a.head) * 63 + a.sector
  }

  lemma LinearNames(a: Address)
    requires Registers(a) && (a.lba || a.cylinder > 0 || a.head > 0 || a.sector > 0)
    ensures Names(a, Linear(a))
  {
    if a.lba {
      LbaValue(a);
    } else {
      ChsSmall(a);
      hide Linear;
    }
  }

  /** n is the number of sectors the count registers ask for: the one from 1 to the largest request that the registers
      hold the low bits of. */
  predicate Asks(ext: bool, sectorCount: nat, hobNsector: nat, n: nat) {
    if ext then 1 <= n <= 65536 && n % 65536 == 256 * hobNsector + sectorCount
    else 1 <= n <= 256 && n % 256 == sectorCount
  }

  lemma RequestedAsks(ext: bool, sectorCount: nat, hobNsector: nat)
    requires sectorCount < 0x100 && hobNsector < 0x100
    ensures Asks(ext, sectorCount, hobNsector, Requested(ext, sectorCount, hobNsector))
  {
  }

  /** The sectors from one interrupt to the next: one, or as many as the guest has set for the multiple commands. */
  function BlockSize(command: nat, multipleSectors: nat): nat {
    if command == 0xC4 || command == 0x29 then multipleSectors else 1
  }

  lemma NamedByTaskFile(drive: Drive, command: nat)
    requires drive.Shape() && IsRead(command) && !drive.Refused(command)
    ensures var ext := command == 0x24 || command == 0x29;
            && Names(drive.address.(lba48 := ext), drive.First(command))
            && Asks(ext, drive.sectorCount, drive.hobNsector, drive.Count(command))
    ensures Per(command, drive.multipleSectors) == BlockSize(command, drive.multipleSectors)
  {
    LinearNames(drive.address.(lba48 := IsExt(command)));
    RequestedAsks(IsExt(command), drive.sectorCount, drive.hobNsector);
    hide Linear, Names, Asks, Requested;
  }

  /** n sectors take i blocks of b and one more, full or not. */
  predicate InBlocks(n: nat, b: nat, i: int) {
    i >= 0 && i * b < n <= (i + 1) * b
  }

  lemma AllOverIs(drive: Drive, n: nat, b: nat, i: int)
    requires i >= 0 && drive.AllOver(i) && drive.total == n && Per(drive.command, drive.multipleSectors) == b
    ensures InBlocks(n, b, i)
  {
  }

  /** The command is accepted, for the sectors the task file names. */
  method Issue(drive: Drive, command: nat) returns (ghost l: nat, ghost n: nat)
    requires drive.Shape() && IsRead(command) && !drive.Refused(command) && drive.InRange(command)
    modifies drive, drive.buffer
    ensures Registers(old(drive.address))
    ensures Names(old(drive.address).(lba48 := command == 0x24 || command == 0x29), l)
    ensures Asks(command == 0x24 || command == 0x29, old(drive.sectorCount), old(drive.hobNsector), n)
    ensures drive.Transferring() && drive.taken == 0 && drive.start == l && drive.total == n && drive.Over(0)
    ensures drive.interrupts == old(drive.interrupts)
    ensures Per(drive.command, drive.multipleSectors) == BlockSize(command, old(drive.multipleSectors))
  {
    l, n := drive.First(command), drive.Count(command);
    NamedByTaskFile(drive, command);
    hide Linear, Names, Asks, Requested, IsRead, Number, TaskFile, Counts, Room, BlockSectors, Per, BlockSize;
    hide Drive.Transferring, Drive.Valid, Drive.InRange, Drive.Refused, Drive.Over;
    drive.ReadCommand(command);
  }

  /** A READ command and then reads of the data port until no more data is requested: the guest gets, of the disk, the
      bytes of the sectors that the task file names, from the first one on, and i interrupts, one for each block after
      the first. */
  method GuestRead(drive: Drive, command: nat, length: nat) returns (data: seq<Byte>, ghost l: nat, ghost n: nat)
    requires drive.Shape() && IsRead(command) && Width(length) && !drive.Refused(command) && drive.InRange(command)
    modifies drive, drive.buffer
    ensures InBlocks(n, BlockSize(command, old(drive.multipleSectors)), drive.interrupts - old(drive.interrupts))
    ensures Registers(old(drive.address))
    ensures Names(old(drive.address).(lba48 := command == 0x24 || command == 0x29), l)
    ensures Asks(command == 0x24 || command == 0x29, old(drive.sectorCount), old(drive.hobNsector), n)
    ensures 512 * (l + n) <= |drive.disk| && data == Part(drive.disk, 512 * l, 512 * (l + n)) && !drive.dataRequest
  {
    hide *;
    l, n := Issue(drive, command);
    ghost var before := drive.interrupts;
    data := drive.ReadAll(length);
    AllOverIs(drive, n, BlockSize(command, old(drive.multipleSectors)), drive.interrupts - before);
    SectorIs();
  }

  lemma SectorIs()
    ensures SECTOR == 512
  {
  }
}
