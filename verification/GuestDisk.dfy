/**
 The disk of an ATA drive as a VHD image serves it: each sector is sought and read at its own place in the file.
 */
module GuestDisk {
  import opened Bytes
  import opened Vhd
  import opened Widths
  import Arith
  import Ata

  ghost predicate AllMapped(v: Layout, first: nat, n: nat) {
    forall s | first <= s < first + n :: Mapped(v, s)
  }

  /** Sector s lies within the allocation table. */
  predicate InTable(v: Layout, s: nat) {
    v.sectorsPerBlock > 0 && s / v.sectorsPerBlock < |v.table|
  }

  /** The file has all bytes of every mapped sector. */
  ghost predicate Complete(file: seq<Byte>, v: Layout) {
    forall s: nat | Mapped(v, s) :: SECTOR * (FileSector(v, s) + 1) <= |file|
  }

  /** The 512 bytes of the file that guest sector s is mapped to. */
  ghost function SectorBytes(file: seq<Byte>, v: Layout, s: nat): (r: seq<Byte>)
    requires Complete(file, v) && Mapped(v, s)
    ensures |r| == SECTOR
  {
    Part(file, SECTOR * FileSector(v, s), SECTOR * (FileSector(v, s) + 1))
  }

  /** What the guest reads from n sectors. */
  ghost function GuestBytes(file: seq<Byte>, v: Layout, first: nat, n: nat): seq<Byte>
    requires Complete(file, v) && AllMapped(v, first, n)
  {
    if n == 0 then [] else GuestBytes(file, v, first, n - 1) + SectorBytes(file, v, first + n - 1)
  }

  /** Within one block the guest's bytes are one stretch of the file. */
  lemma {:induction false} OneStretch(file: seq<Byte>, v: Layout, first: nat, n: nat)
    requires Complete(file, v) && Mapped(v, first) && n > 0 && first % v.sectorsPerBlock + n <= v.sectorsPerBlock
    ensures AllMapped(v, first, n)
    ensures var p := FileSector(v, first);
            SECTOR * (p + n) <= |file| && GuestBytes(file, v, first, n) == Part(file, SECTOR * p, SECTOR * (p + n))
  {
    var p := FileSector(v, first);
    forall s | first <= s < first + n ensures Mapped(v, s) {
      Adjacent(v, first, s - first);
    }
    Adjacent(v, first, n - 1);
    hide FileSector, Mapped;
    if n > 1 {
      OneStretch(file, v, first, n - 1);
    }
    Join(file, SECTOR * p, SECTOR * (p + n - 1), SECTOR * (p + n));
  }

  /** The disk holds, at every mapped sector, the bytes of its place in the file. */
  ghost predicate Serves(file: seq<Byte>, v: Layout, disk: seq<Byte>)
    requires Complete(file, v)
  {
    forall s: nat | Mapped(v, s) && SECTOR * (s + 1) <= |disk| ::
      Part(disk, SECTOR * s, SECTOR * (s + 1)) == SectorBytes(file, v, s)
  }

  lemma {:induction false} RangeOfDisk(file: seq<Byte>, v: Layout, disk: seq<Byte>, first: nat, n: nat)
    requires Complete(file, v) && AllMapped(v, first, n) && Serves(file, v, disk) && SECTOR * (first + n) <= |disk|
    ensures Part(disk, SECTOR * first, SECTOR * (first + n)) == GuestBytes(file, v, first, n)
  {
    hide Mapped;
    if n > 0 {
      RangeOfDisk(file, v, disk, first, n - 1);
      Join(disk, SECTOR * first, SECTOR * (first + n - 1), SECTOR * (first + n));
    }
  }

  /** The sector loop of HardDiskReadSector over the image. The process ends if and only if a sector of the range
      is in a free block. */
  method ReadSectors(image: Image, first: nat, n: nat) returns (data: seq<Byte>)
    requires !image.halted && Complete(image.file, image.View())
    requires forall s | first <= s < first + n :: InTable(image.View(), s)
    modifies image`dataOffset, image`halted
    ensures image.View() == old(image.View())
    ensures image.halted <==> !AllMapped(image.View(), first, n)
    ensures !image.halted ==> data == GuestBytes(image.file, image.View(), first, n)
  {
    data := [];
    ghost var v := image.View();
    for i := 0 to n
      invariant image.View() == v && !image.halted
      invariant AllMapped(v, first, i) && data == GuestBytes(image.file, v, first, i)
    {
      assert InTable(v, first + i);
      image.Seek((first + i) * SECTOR);
      Arith.DivMod((first + i) * SECTOR, first + i, SECTOR, 0);
      var next := image.Read(SECTOR);
      if image.halted {
        return;
      }
      assert next == SectorBytes(image.file, v, first + i);
      data := data + next;
    }
  }

  /** A guest that drains a read command gets the mapped file sectors of its range, one after the other. */
  method GuestReads(drive: Ata.Drive, ghost file: seq<Byte>, ghost v: Layout, length: nat) returns (data: seq<Byte>)
    requires drive.Transferring() && drive.taken == 0 && Width(length)
    requires Complete(file, v) && Serves(file, v, drive.disk) && AllMapped(v, drive.start, drive.total)
    modifies drive, drive.buffer
    ensures data == GuestBytes(file, v, old(drive.start), old(drive.total))
  {
    data := drive.ReadAll(length);
    RangeOfDisk(file, v, drive.disk, drive.start, drive.total);
  }
}
