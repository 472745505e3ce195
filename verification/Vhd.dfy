/**
 Dynamic VHD images: the block geometry read from the header, the block allocation table, and the map from
 guest sectors to sectors of the image file.
 */
module Vhd {
  import opened Arith
  import opened Bytes

  const SECTOR := 512
  const FREE := 0xFFFF_FFFF
  const MAX_SECTORS := 0x1_0000_0000

  /** A 32-bit value in the other byte order. */
  function Swap(x: nat): nat {
    x % 0x100 * 0x100_0000 + x / 0x100 % 0x100 * 0x1_0000 + x / 0x1_0000 % 0x100 * 0x100 + x / 0x100_0000 % 0x100
  }

  function SwapAll(s: seq<nat>): (r: seq<nat>)
    ensures |r| == |s|
  {
    seq(|s|, i requires 0 <= i < |s| => Swap(s[i]))
  }

  /** The bytes of the table entry are in the file from the most significant one on. */
  lemma SwapIsBigEndian(b0: nat, b1: nat, b2: nat, b3: nat)
    requires b0 < 0x100 && b1 < 0x100 && b2 < 0x100 && b3 < 0x100
    ensures Swap(b0 + 0x100 * b1 + 0x1_0000 * b2 + 0x100_0000 * b3) == 0x100_0000 * b0 + 0x1_0000 * b1 + 0x100 * b2 + b3
  {
    var x := b0 + 0x100 * b1 + 0x1_0000 * b2 + 0x100_0000 * b3;
    DivMod(x, b1 + 0x100 * b2 + 0x1_0000 * b3, 0x100, b0);
    DivMod(x, b2 + 0x100 * b3, 0x1_0000, b0 + 0x100 * b1);
    DivMod(x, b3, 0x100_0000, b0 + 0x100 * b1 + 0x1_0000 * b2);
    DivMod(b1 + 0x100 * b2 + 0x1_0000 * b3, b2 + 0x100 * b3, 0x100, b1);
    DivMod(b2 + 0x100 * b3, b3, 0x100, b2);
  }

  /** The sectors of the bitmap in front of each block, for blocks of this many sectors. */
  function BitmapSectors(sectorsPerBlock: nat): nat {
    var bytes := sectorsPerBlock / 8;
    bytes / SECTOR + if bytes % SECTOR > 0 then 1 else 0
  }

  /** The bitmap has a bit for every sector of the block, except when the truncated byte count fills its
      sectors and up to seven sectors are left over. */
  lemma BitmapCoversIff(sectorsPerBlock: nat)
    ensures 8 * SECTOR * BitmapSectors(sectorsPerBlock) >= sectorsPerBlock <==> !(1 <= sectorsPerBlock % 4096 <= 7)
    ensures 8 * SECTOR * BitmapSectors(sectorsPerBlock) < sectorsPerBlock + 4096
  {
    var (q, r) := (sectorsPerBlock / 4096, sectorsPerBlock % 4096);
    DivMod(sectorsPerBlock, 512 * q + r / 8, 8, r % 8);
    DivMod(512 * q + r / 8, q, 512, r / 8);
  }

  /** What VhdRead uses of the image. */
  datatype Layout = Layout(table: seq<nat>, sectorsPerBlock: nat, bitmapSectors: nat)

  predicate Mapped(v: Layout, s: nat) {
    v.sectorsPerBlock > 0 && s / v.sectorsPerBlock < |v.table| && v.table[s / v.sectorsPerBlock] != FREE
  }

  /** The file sector of guest sector s. */
  function FileSector(v: Layout, s: nat): nat
    requires Mapped(v, s)
  {
    v.table[s / v.sectorsPerBlock] + v.bitmapSectors + s % v.sectorsPerBlock
  }

  predicate Allocated(v: Layout, i: nat) {
    i < |v.table| && v.table[i] != FREE
  }

  /** File sector p is data of block i. */
  predicate InData(v: Layout, i: nat, p: nat) {
    Allocated(v, i) && v.table[i] + v.bitmapSectors <= p < v.table[i] + v.bitmapSectors + v.sectorsPerBlock
  }

  ghost predicate DataDisjoint(v: Layout) {
    forall i: nat, j: nat, p: nat :: InData(v, i, p) && InData(v, j, p) ==> i == j
  }

  ghost predicate Injective(v: Layout) {
    forall s: nat, t: nat | Mapped(v, s) && Mapped(v, t) && FileSector(v, s) == FileSector(v, t) :: s == t
  }

  /** A guest sector is stored in the data of its own block, behind the bitmap. */
  lemma StoredInBlock(v: Layout, s: nat)
    requires Mapped(v, s)
    ensures InData(v, s / v.sectorsPerBlock, FileSector(v, s))
  {
  }

  /** Every data sector of an allocated block stores exactly one guest sector of that block. */
  lemma SectorAt(v: Layout, i: nat, p: nat) returns (s: nat)
    requires InData(v, i, p)
    ensures Mapped(v, s) && s / v.sectorsPerBlock == i && FileSector(v, s) == p
    ensures forall t: nat | Mapped(v, t) && t / v.sectorsPerBlock == i && FileSector(v, t) == p :: t == s
  {
    var r := p - v.table[i] - v.bitmapSectors;
    s := i * v.sectorsPerBlock + r;
    DivMod(s, i, v.sectorsPerBlock, r);
    forall t: nat | Mapped(v, t) && t / v.sectorsPerBlock == i && FileSector(v, t) == p
      ensures t == s
    {
      assert t == t / v.sectorsPerBlock * v.sectorsPerBlock + t % v.sectorsPerBlock;
    }
  }

  /** Distinct guest sectors have distinct file sectors if and only if the data of the blocks is disjoint. */
  lemma InjectiveIff(v: Layout)
    ensures Injective(v) <==> DataDisjoint(v)
  {
    if DataDisjoint(v) {
      DisjointIsInjective(v);
    }
    if Injective(v) {
      InjectiveIsDisjoint(v);
    }
  }

  lemma DisjointIsInjective(v: Layout)
    requires DataDisjoint(v)
    ensures Injective(v)
  {
    forall s: nat, t: nat | Mapped(v, s) && Mapped(v, t) && FileSector(v, s) == FileSector(v, t)
      ensures s == t
    {
      SamePlace(v, s, t);
    }
  }

  lemma SamePlace(v: Layout, s: nat, t: nat)
    requires DataDisjoint(v) && Mapped(v, s) && Mapped(v, t) && FileSector(v, s) == FileSector(v, t)
    ensures s == t
  {
    StoredInBlock(v, s);
    StoredInBlock(v, t);
    hide InData;
    assert s / v.sectorsPerBlock == t / v.sectorsPerBlock;
    SameRemainder(s, t, v.sectorsPerBlock);
  }

  lemma SameRemainder(s: nat, t: nat, d: nat)
    requires d > 0 && s / d == t / d && s % d == t % d
    ensures s == t
  {
    assert s == s / d * d + s % d && t == t / d * d + t % d;
  }

  lemma InjectiveIsDisjoint(v: Layout)
    requires Injective(v)
    ensures DataDisjoint(v)
  {
    hide FileSector, InData;
    forall i: nat, j: nat, p: nat | InData(v, i, p) && InData(v, j, p)
      ensures i == j
    {
      var s := SectorAt(v, i, p);
      var t := SectorAt(v, j, p);
    }
  }

  /** Sectors that follow each other in a block follow each other in the file. */
  lemma Adjacent(v: Layout, s: nat, k: nat)
    requires Mapped(v, s) && s % v.sectorsPerBlock + k < v.sectorsPerBlock
    ensures Mapped(v, s + k) && FileSector(v, s + k) == FileSector(v, s) + k
  {
    DivMod(s + k, s / v.sectorsPerBlock, v.sectorsPerBlock, s % v.sectorsPerBlock + k);
  }

  class Image {
    const file: seq<Byte>

    var cbDataBlock: nat
    var sectorsPerBlock: nat
    var bitmapBytes: nat
    var bitmapSectors: nat
    var table: array<nat>
    var dataOffset: nat
    var halted: bool

    ghost function View(): Layout
      reads this, table
    {
      Layout(table[..], sectorsPerBlock, bitmapSectors)
    }

    constructor (file: seq<Byte>)
      ensures this.file == file && !halted && fresh(table)
    {
      this.file := file;
      table := new nat[0];
      halted := false;
    }

    /** VhdLoadDynamicDisk: the geometry and the allocation table, whose entries are swapped in place. */
    method LoadDynamicDisk(blockSize: nat, maxTableEntries: nat, raw: seq<nat>)
      requires |raw| == Swap(maxTableEntries)
      modifies this
      ensures halted <==> old(halted) || |raw| > MAX_SECTORS - 2
      ensures |raw| <= MAX_SECTORS - 2 ==>
                && cbDataBlock == Swap(blockSize) && bitmapBytes == sectorsPerBlock / 8
                && sectorsPerBlock == cbDataBlock / SECTOR && bitmapSectors == BitmapSectors(sectorsPerBlock)
                && fresh(table) && table[..] == SwapAll(raw)
    {
      cbDataBlock := Swap(blockSize);
      var entries := Swap(maxTableEntries);
      if entries > MAX_SECTORS - 2 {
        halted := true;
        return;
      }
      sectorsPerBlock := cbDataBlock / SECTOR;
      bitmapBytes := sectorsPerBlock / 8;
      bitmapSectors := bitmapBytes / SECTOR;
      if bitmapBytes % SECTOR > 0 {
        bitmapSectors := bitmapSectors + 1;
      }
      table := new nat[entries](i requires 0 <= i < |raw| => raw[i]);
      var swapped := table;
      for i := 0 to entries
        invariant table == swapped && fresh(swapped) && swapped.Length == entries
        invariant forall j | 0 <= j < i :: swapped[j] == SwapAll(raw)[j]
        invariant forall j | i <= j < entries :: swapped[j] == raw[j]
        modifies swapped
      {
        swapped[i] := Swap(swapped[i]);
      }
    }

    method Seek(offset: nat)
      modifies `dataOffset
      ensures dataOffset == offset
    {
      dataOffset := offset;
    }

    /** VhdRead: n bytes from the file sector of the current offset, as far as the file goes. A free block
        ends the process. */
    method Read(n: nat) returns (data: seq<Byte>)
      requires sectorsPerBlock > 0 && dataOffset / SECTOR / sectorsPerBlock < table.Length
      modifies `halted
      ensures halted <==> old(halted) || !Mapped(View(), dataOffset / SECTOR)
      ensures Mapped(View(), dataOffset / SECTOR) ==>
                var at := SECTOR * FileSector(View(), dataOffset / SECTOR);
                data == if at > |file| then [] else if at + n > |file| then file[at..] else Part(file, at, at + n)
    {
      data := [];
      var entry := dataOffset / SECTOR / sectorsPerBlock;
      var index := dataOffset / SECTOR % sectorsPerBlock;
      if table[entry] == FREE {
        halted := true;
        return;
      }
      var at := (table[entry] + bitmapSectors + index) * SECTOR;
      if at <= |file| {
        data := file[at..if at + n > |file| then |file| else at + n];
      }
    }
  }
}
