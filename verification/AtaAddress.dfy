/**
 The ATA address registers as one linear sector number: reading it and stepping it, in the three
 encodings (LBA48, LBA28 and cylinder/head/sector).
 */
module AtaAddress {

  const HARDDISK_HEADS := 16
  const HARDDISK_SECTORS := 63

  /** The task-file registers that hold the address; `lba` is the address-mode bit. */
  datatype Address = Address(
    lba: bool, lba48: bool,
    hobHighCylinder: nat, hobLowCylinder: nat, hobSector: nat,
    cylinder: nat, head: nat, sector: nat)

  datatype Geometry = Geometry(cylinders: nat, heads: nat, sectorsPerTrack: nat)

  predicate Registers(a: Address) {
    && a.hobHighCylinder < 0x100 && a.hobLowCylinder < 0x100 && a.hobSector < 0x100
    && a.cylinder < 0x1_0000 && a.head < 0x100 && a.sector < 0x100
  }

  /** The linear sector; the CHS form wraps as 64 bits when the sector register is 0. */
  function Linear(a: Address): nat
    requires Registers(a)
  {
    if a.lba && a.lba48 then
      a.hobHighCylinder * 0x100_0000_0000 + a.hobLowCylinder * 0x1_0000_0000 + a.hobSector * 0x100_0000
      + a.cylinder * 0x100 + a.sector
    else if a.lba then
      a.head * 0x100_0000 + a.cylinder * 0x100 + a.sector
    else
      Chs(a) % 0x1_0000_0000_0000_0000
  }

  function Chs(a: Address): int {
    a.cylinder * HARDDISK_HEADS * HARDDISK_SECTORS + a.head * HARDDISK_SECTORS + a.sector - 1
  }

  lemma ChsSmall(a: Address)
    requires Registers(a)
    ensures -1 <= Chs(a) < 0x1_0000_0000
    ensures !a.lba && Chs(a) >= 0 ==> Linear(a) == Chs(a)
    ensures !a.lba && Chs(a) < 0 ==> Linear(a) == 0xFFFF_FFFF_FFFF_FFFF
  {
  }

  /** Stepping the registers past linear sector l. The carry into the cylinder tests the sector. */
  function Increment(a: Address, g: Geometry, l: nat): (r: Address)
    requires Registers(a)
    ensures Registers(r) && r.lba == a.lba && r.lba48 == a.lba48
  {
    var n := l + 1;
    if a.lba && a.lba48 then
      a.(hobHighCylinder := n / 0x100_0000_0000 % 0x100, hobLowCylinder := n / 0x1_0000_0000 % 0x100,
         hobSector := n / 0x100_0000 % 0x100, cylinder := n / 0x100 % 0x1_0000, sector := n % 0x100)
    else if a.lba then
      a.(head := n / 0x100_0000 % 0x100, cylinder := n / 0x100 % 0x1_0000, sector := n % 0x100)
    else
      var next := (a.sector + 1) % 0x100;
      if next <= g.sectorsPerTrack then a.(sector := next)
      else
        var wrapped := a.(sector := 1, head := (a.head + 1) % 0x100);
        if wrapped.sector >= g.heads then
          var cylinder := (a.cylinder + 1) % 0x1_0000;
          wrapped.(sector := 0, cylinder := if cylinder >= g.cylinders then (g.cylinders - 1) % 0x1_0000 else cylinder)
        else wrapped
  }

  /** The geometry set up at initialisation. */
  predicate Initialised(g: Geometry) {
    g.heads == HARDDISK_HEADS && g.sectorsPerTrack == HARDDISK_SECTORS
  }

  lemma LowBytes(n: nat)
    ensures n / 0x100 % 0x1_0000 * 0x100 + n % 0x100 == n % 0x100_0000
  {
  }

  lemma HighBytes(n: nat)
    ensures n / 0x1_0000 % 0x100 * 0x1_0000 + n / 0x100 % 0x100 * 0x100 + n % 0x100 == n % 0x100_0000
  {
    var q := n / 0x100;
    assert n / 0x1_0000 == q / 0x100;
    PairOfBytes(q);
    LowBytes(n);
  }

  lemma PairOfBytes(q: nat)
    ensures q / 0x100 % 0x100 * 0x100 + q % 0x100 == q % 0x1_0000
  {
  }

  lemma Bytes48(n: nat)
    requires n < 0x1_0000_0000_0000
    ensures n / 0x100_0000_0000 % 0x100 * 0x100_0000_0000 + n / 0x1_0000_0000 % 0x100 * 0x1_0000_0000
            + n / 0x100_0000 % 0x100 * 0x100_0000 + n / 0x100 % 0x1_0000 * 0x100 + n % 0x100 == n
  {
    var high := n / 0x100_0000;
    LowBytes(n);
    HighBytes(high);
    assert n / 0x1_0000_0000 == high / 0x100;
    assert n / 0x100_0000_0000 == high / 0x1_0000;
  }

  lemma Bytes32(n: nat)
    requires n < 0x1_0000_0000
    ensures n / 0x100_0000 % 0x100 * 0x100_0000 + n / 0x100 % 0x1_0000 * 0x100 + n % 0x100 == n
  {
    LowBytes(n);
  }

  /** Both LBA encodings step to the linear successor up to the width of their registers. */
  lemma LbaSuccessor(a: Address, g: Geometry)
    requires Registers(a) && a.lba
    requires Linear(a) + 1 < if a.lba48 then 0x1_0000_0000_0000 else 0x1_0000_0000
    ensures Linear(Increment(a, g, Linear(a))) == Linear(a) + 1
  {
    if a.lba48 {
      Bytes48(Linear(a) + 1);
    } else {
      Bytes32(Linear(a) + 1);
    }
  }

  /** The CHS encoding steps to the linear successor exactly for a sector within the track, unless it
      is the last one under head 255. The cylinder carry is never taken; the linear address does not need it. */
  lemma ChsSuccessorIff(a: Address, g: Geometry)
    requires Registers(a) && !a.lba && Initialised(g) && (a.sector == 0 ==> a.cylinder > 0 || a.head > 0)
    ensures Linear(Increment(a, g, Linear(a))) == Linear(a) + 1
            <==> a.sector < HARDDISK_SECTORS || (a.sector == HARDDISK_SECTORS && a.head < 255)
    ensures Increment(a, g, Linear(a)).cylinder == a.cylinder
  {
    var r := Increment(a, g, Linear(a));
    ChsSmall(a);
    ChsSmall(r);
    hide Linear;
  }

  /** n sectors can be read from here without the encoding wrapping. */
  predicate Room(a: Address, n: nat)
    requires Registers(a)
  {
    if a.lba then Linear(a) + n <= if a.lba48 then 0x1_0000_0000_0000 else 0x1_0000_0000
    else 1 <= a.sector <= HARDDISK_SECTORS && a.head * HARDDISK_SECTORS + a.sector - 1 + n <= 256 * HARDDISK_SECTORS
  }

  /** One step of a run of n sectors. */
  lemma Advance(a: Address, g: Geometry, n: nat)
    requires Registers(a) && Initialised(g) && n > 1 && Room(a, n)
    ensures var r := Increment(a, g, Linear(a)); Linear(r) == Linear(a) + 1 && Room(r, n - 1)
  {
    if a.lba {
      LbaSuccessor(a, g);
      hide Increment, Linear;
    } else {
      ChsSuccessorIff(a, g);
      hide Linear;
      ChsRoom(a, g, n, Linear(a));
    }
  }

  lemma ChsRoom(a: Address, g: Geometry, n: nat, l: nat)
    requires Registers(a) && !a.lba && Initialised(g) && n > 1 && Room(a, n)
    ensures Room(Increment(a, g, l), n - 1)
  {
    if a.sector < HARDDISK_SECTORS {
      assert Increment(a, g, l) == a.(sector := a.sector + 1);
    } else {
      assert a.head < 255;
      assert Increment(a, g, l).head == a.head + 1 && Increment(a, g, l).sector == 1;
    }
    hide Increment, Linear;
  }

  /** k steps from a. */
  function Steps(a: Address, g: Geometry, k: nat): (r: Address)
    requires Registers(a)
    ensures Registers(r) && r.lba == a.lba && r.lba48 == a.lba48
  {
    if k == 0 then a
    else
      var b := Steps(a, g, k - 1);
      Increment(b, g, Linear(b))
  }

  /** The sectors visited from L are L, L+1, ..., in every encoding with room for them. */
  lemma {:induction false} StepsVisitRange(a: Address, g: Geometry, n: nat, k: nat)
    requires Registers(a) && Initialised(g) && Room(a, n) && k < n
    ensures Linear(Steps(a, g, k)) == Linear(a) + k && Room(Steps(a, g, k), n - k)
  {
    if k > 0 {
      StepsVisitRange(a, g, n, k - 1);
      hide Linear, Increment, Room;
      Advance(Steps(a, g, k - 1), g, n - (k - 1));
    }
  }
}
