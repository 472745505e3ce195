/**
 PIO reads of an ATA disk: the READ command arm, the sector loop that fills the buffer, and the reads of
 the data port that drain it. The disk image is a sequence of bytes, 512 to the sector.
 */
module Ata {
  import opened Arith
  import opened AtaAddress
  import opened Bytes
  import opened Widths

  const SECTOR := 512
  const MAX_SECTORS_PER_BLOCK := 16

  /** The command codes of the READ arm. */
  const READ := 0x20
  const READ_WITHOUT_RETRIES := 0x21
  const READ_EXT := 0x24
  const READ_MULTIPLE_EXT := 0x29
  const READ_MULTIPLE := 0xC4

  predicate IsRead(command: nat) {
    command in {READ, READ_WITHOUT_RETRIES, READ_EXT, READ_MULTIPLE_EXT, READ_MULTIPLE}
  }

  predicate IsMultiple(command: nat) {
    command in {READ_MULTIPLE_EXT, READ_MULTIPLE}
  }

  predicate IsExt(command: nat) {
    command in {READ_EXT, READ_MULTIPLE_EXT}
  }

  /** The number of sectors the count registers ask for: a count of 0 is the largest one. */
  function Requested(ext: bool, sectorCount: nat, hobNsector: nat): (n: nat)
    requires sectorCount < 0x100 && hobNsector < 0x100
    ensures 1 <= n <= if ext then 65536 else 256
  {
    if !ext then if sectorCount == 0 then 256 else sectorCount
    else if sectorCount == 0 && hobNsector == 0 then 65536
    else 0x100 * hobNsector + sectorCount
  }

  /** The sectors of the next block when n are left. */
  function BlockSectors(command: nat, n: nat, multipleSectors: nat): nat {
    if !IsMultiple(command) then 1 else if n > multipleSectors then multipleSectors else n
  }

  /** The arithmetic of a transfer of total sectors: left of them are still to load, block are in the buffer,
      whose size and index are given, and the guest has taken so many bytes. */
  ghost predicate Counts(total: nat, left: nat, block: nat, size: nat, index: nat, taken: nat) {
    && size == SECTOR * block && 0 < block <= MAX_SECTORS_PER_BLOCK && left + block <= total && index <= size
    && taken == SECTOR * (total - left - block) + index
  }

  lemma CountsBlock(total: nat, left: nat, block: nat, size: nat, taken: nat, n: nat)
    requires Counts(total, left, block, size, size, taken)
    ensures left == 0 <==> taken == SECTOR * total
    ensures left > 0 ==> taken < SECTOR * total
    ensures 0 < n <= left && n <= MAX_SECTORS_PER_BLOCK ==> Counts(total, left - n, n, SECTOR * n, 0, taken)
  {
  }

  /** k full blocks are over, and the current one is full unless it is the last. */
  ghost predicate Paced(per: nat, total: nat, left: nat, block: nat, k: nat) {
    total == k * per + block + left && 0 < block <= per && (left > 0 ==> block == per)
  }

  /** n sectors are k full blocks and one more, full or not. */
  ghost predicate Blocks(per: nat, n: nat, k: nat) {
    k * per < n <= (k + 1) * per
  }

  lemma NextPaced(per: nat, total: nat, left: nat, block: nat, k: nat, n: nat)
    requires Paced(per, total, left, block, k) && (left > 0 ==> n == if left > per then per else left)
    ensures if left > 0 then Paced(per, total, left - n, n, k + 1) else Blocks(per, total, k)
  {
    assert (k + 1) * per == k * per + per;
  }

  /** The sectors of a full block. */
  function Per(command: nat, multipleSectors: nat): nat {
    if IsMultiple(command) then multipleSectors else 1
  }

  lemma FirstPaced(command: nat, total: nat, multipleSectors: nat)
    requires total > 0 && (IsMultiple(command) ==> multipleSectors > 0)
    ensures var n := BlockSectors(command, total, multipleSectors);
            n <= total && Paced(Per(command, multipleSectors), total, total - n, n, 0)
  {
  }

  lemma WholeSectors(k: nat, w: nat)
    requires Width(w)
    ensures Multiple(SECTOR * k, w)
  {
    if w == 2 {
      DivMod(SECTOR * k, 256 * k, 2, 0);
    } else if w == 4 {
      DivMod(SECTOR * k, 128 * k, 4, 0);
    }
  }

  lemma BlockBounds(command: nat, n: nat, multipleSectors: nat)
    requires n > 0 && (IsMultiple(command) ==> multipleSectors > 0)
    ensures var b := BlockSectors(command, n, multipleSectors);
            && 0 < b <= n && BlockSectors(command, n - b, multipleSectors) <= b
            && (!IsMultiple(command) ==> b == 1)
  {
  }

  class Drive {
    const disk: seq<Byte>
    const isDisk: bool
    const geometry: Geometry
    const buffer: array<Byte>

    var address: Address
    var sectorCount: nat
    var hobNsector: nat
    var numberOfSectors: nat
    var multipleSectors: nat
    var bufferSize: nat
    var bufferIndex: nat
    var command: nat
    var busy: bool
    var dataRequest: bool
    var error: bool
    var errorRegister: nat
    var nextSector: nat
    var currentSector: nat
    var interrupts: nat

    // The transfer under way: its first sector, its length, the sectors in the buffer, and the bytes the
    // guest has taken.
    ghost var start: nat
    ghost var total: nat
    ghost var block: nat
    ghost var taken: nat

    ghost predicate Shape()
      reads `address, `sectorCount, `hobNsector, `multipleSectors
    {
      && Initialised(geometry) && Registers(address)
      && sectorCount < 0x100 && hobNsector < 0x100 && multipleSectors < 0x100
      && buffer.Length == MAX_SECTORS_PER_BLOCK * SECTOR + 6
    }

    /** n sectors are left to load, the first of them l; all are on the disk, and the registers can count
        through them. */
    ghost predicate Ahead(l: int, n: nat)
      reads `address, `numberOfSectors
      requires Registers(address)
    {
      numberOfSectors == n && (n > 0 ==> Linear(address) == l && Room(address, n) && SECTOR * (l + n) <= |disk|)
    }

    /** The buffer holds the block before the address registers. */
    ghost predicate Filled()
      reads `numberOfSectors, `start, `total, `block, buffer
    {
      Copied(SECTOR * (start + total - numberOfSectors - block), SECTOR * block) && SECTOR * (start + total) <= |disk|
    }

    /** A read is being served: the buffer is filled and the registers agree with what the guest has taken. */
    ghost predicate Serving()
      reads `address, `sectorCount, `hobNsector, `multipleSectors, `numberOfSectors, `bufferSize, `bufferIndex,
            `command, `dataRequest, `start, `total, `block, `taken, buffer
    {
      && Shape() && IsRead(command) && dataRequest
      && Counts(total, numberOfSectors, block, bufferSize, bufferIndex, taken)
      && Filled() && Ahead(start + total - numberOfSectors, numberOfSectors)
      && (if IsMultiple(command) then multipleSectors > 0 else block == 1)
      && BlockSectors(command, numberOfSectors, multipleSectors) <= MAX_SECTORS_PER_BLOCK
    }

    ghost predicate Transferring()
      reads `address, `sectorCount, `hobNsector, `multipleSectors, `numberOfSectors, `bufferSize, `bufferIndex,
            `command, `dataRequest, `start, `total, `block, `taken, buffer
    {
      Serving() && bufferIndex < bufferSize
    }

    /** Either no data is requested, or a read is under way and the registers agree with it. */
    ghost predicate Valid()
      reads `address, `sectorCount, `hobNsector, `multipleSectors, `numberOfSectors, `bufferSize, `bufferIndex,
            `command, `dataRequest, `start, `total, `block, `taken, buffer
    {
      Shape() && (dataRequest ==> Transferring())
    }

    /** The current sector, or all ones past the end of the disk. */
    function LogicalAddress(): nat
      reads `address
      requires Registers(address)
    {
      var l := Linear(address);
      if |disk| / SECTOR <= l then 0xFFFF_FFFF_FFFF_FFFF else l
    }

    /** The first n bytes of the buffer are the image from offset at. */
    ghost predicate Copied(at: int, n: int)
      reads buffer
    {
      0 <= at && 0 <= n <= buffer.Length && at + n <= |disk| && buffer[..n] == disk[at..at + n]
    }

    /** One sector from the image into the buffer, behind i bytes of the sectors before it. */
    method CopySector(sector: nat, i: nat)
      requires SECTOR * (sector + 1) <= |disk| && i + SECTOR <= buffer.Length
      modifies buffer
      ensures old(Copied(SECTOR * sector - i, i)) ==> Copied(SECTOR * sector - i, i + SECTOR)
    {
      forall j | 0 <= j < SECTOR {
        buffer[i + j] := disk[SECTOR * sector + j];
      }
      ghost var at := SECTOR * sector - i;
      if old(Copied(at, i)) {
        assert forall j :: 0 <= j < i ==> buffer[j] == old(buffer[..i])[j] == disk[at..at + i][j];
      }
    }

    /** Steps the address registers past sector l. In CHS mode the returned sector is l itself. */
    method IncrementAddress(l: nat) returns (r: nat)
      requires Shape() && numberOfSectors > 0
      modifies `address, `sectorCount, `numberOfSectors
      ensures Shape() && address == Increment(old(address), geometry, l)
      ensures sectorCount == (old(sectorCount) + 0xFF) % 0x100 && numberOfSectors == old(numberOfSectors) - 1
      ensures r == if address.lba then l + 1 else l
      ensures old(Ahead(l, numberOfSectors)) ==> Ahead(l + 1, numberOfSectors)
      ensures address.lba == old(address.lba)
    {
      hide Linear, Increment, Room;
      if numberOfSectors > 1 && Ahead(l, numberOfSectors) {
        Advance(address, geometry, numberOfSectors);
      }
      sectorCount := (sectorCount + 0xFF) % 0x100;
      numberOfSectors := numberOfSectors - 1;
      r := if address.lba then l + 1 else l;
      address := Increment(address, geometry, l);
    }

    lemma CopiesNothing(at: nat)
      requires at <= |disk|
      ensures Copied(at, 0)
    {
    }

    /** Fills the buffer with bufferSize bytes, n sectors, from sector first, the one in the address registers. */
    method ReadSector(ghost first: nat, ghost n: nat) returns (filled: nat)
      requires Shape() && 0 < n <= numberOfSectors && bufferSize == SECTOR * n && n <= MAX_SECTORS_PER_BLOCK
      requires Ahead(first, numberOfSectors)
      modifies `address, `sectorCount, `numberOfSectors, `nextSector, buffer
      ensures Shape() && filled == bufferSize
      ensures Ahead(first + n, old(numberOfSectors) - n)
      ensures Copied(SECTOR * first, bufferSize)
      ensures (sectorCount + n) % 0x100 == old(sectorCount) && address.lba == old(address.lba)
      ensures nextSector == if address.lba then first + n else first + n - 1
    {
      hide Linear, Room, Increment, Registers, Copied;
      CopiesNothing(SECTOR * first);
      var i := 0;
      ghost var k := 0;
      while i < bufferSize
        invariant i == SECTOR * k && k <= n && Shape()
        invariant Ahead(first + k, old(numberOfSectors) - k)
        invariant Copied(SECTOR * first, i)
        invariant (sectorCount + k) % 0x100 == old(sectorCount) && address.lba == old(address.lba)
        invariant k > 0 ==> nextSector == if address.lba then first + k else first + k - 1
      {
        var l := LogicalAddress();
        CopySector(l, i);
        nextSector := IncrementAddress(l);
        i := i + SECTOR;
        k := k + 1;
      }
      filled := i;
    }

    /** k blocks of the transfer are over. */
    ghost predicate Over(k: nat)
      reads `command, `multipleSectors, `numberOfSectors, `total, `block
    {
      Paced(Per(command, multipleSectors), total, numberOfSectors, block, k)
    }

    /** The whole transfer is k full blocks and one more. */
    ghost predicate AllOver(k: nat)
      reads `command, `multipleSectors, `total
    {
      Blocks(Per(command, multipleSectors), total, k)
    }

    /** The buffer is sized for a next block of n sectors. */
    ghost predicate Ready(n: nat)
      reads `address, `sectorCount, `hobNsector, `multipleSectors, `numberOfSectors, `bufferSize, `command,
            `start, `total, `taken
    {
      && Shape() && IsRead(command)
      && 0 < n <= numberOfSectors <= total && Ahead(start + total - numberOfSectors, numberOfSectors)
      && Counts(total, numberOfSectors - n, n, bufferSize, 0, taken) && SECTOR * (start + total) <= |disk|
      && (if IsMultiple(command) then multipleSectors > 0 else n == 1)
      && BlockSectors(command, numberOfSectors - n, multipleSectors) <= MAX_SECTORS_PER_BLOCK
    }

    /** Loads a block of n sectors and starts at its first byte. */
    method Refill(ghost n: nat)
      requires Ready(n)
      modifies `address, `sectorCount, `numberOfSectors, `nextSector, `bufferIndex, `dataRequest, `block, buffer
      ensures Valid() && Transferring() && dataRequest
      ensures block == n && numberOfSectors == old(numberOfSectors) - n
    {
      assert bufferSize == SECTOR * n && 0 < n <= MAX_SECTORS_PER_BLOCK;
      hide Linear, Room, Increment, Registers, Copied, IsRead, IsMultiple, Initialised, Counts, BlockSectors;
      dataRequest := true;
      block := n;
      var _ := ReadSector(start + total - numberOfSectors, n);
      bufferIndex := 0;
    }

    /** The next block is as large as the first one, or what is left. */
    method Resize() returns (ghost n: nat)
      requires Serving() && bufferIndex == bufferSize
      modifies `bufferSize
      ensures Shape() && dataRequest
      ensures n == BlockSectors(command, numberOfSectors, multipleSectors)
      ensures numberOfSectors > 0 ==> Ready(n) && taken < SECTOR * total
      ensures numberOfSectors == 0 ==> taken == SECTOR * total
    {
      assert !IsMultiple(command) ==> bufferSize == SECTOR;
      hide Linear, Room, Increment, Registers, Copied, IsRead, IsMultiple, Initialised, Counts;
      n := BlockSectors(command, numberOfSectors, multipleSectors);
      CountsBlock(total, numberOfSectors, block, bufferSize, taken, n);
      if numberOfSectors > 0 {
        BlockBounds(command, numberOfSectors, multipleSectors);
      }
      if IsMultiple(command) {
        bufferSize := if numberOfSectors > multipleSectors then multipleSectors * SECTOR else numberOfSectors * SECTOR;
      }
    }

    /** The end of the block: loads the next one and raises the interrupt, or ends the transfer. */
    method NextBlock()
      requires Serving() && bufferIndex == bufferSize
      modifies this, buffer
      ensures Valid() && start == old(start) && total == old(total) && taken == old(taken)
      ensures command == old(command) && multipleSectors == old(multipleSectors)
      ensures dataRequest <==> taken < SECTOR * total
      ensures interrupts == old(interrupts) + if dataRequest then 1 else 0
      ensures !busy && !error && errorRegister == old(errorRegister) && currentSector == old(nextSector)
      ensures forall k: nat | old(Over(k)) :: if dataRequest then Over(k + 1) else AllOver(k)
    {
      NextOver();
      hide Serving, Ready, Shape, Transferring, Valid, BlockSectors, Paced, Blocks, Per, Counts;
      ghost var n := Resize();
      Finish();
      if numberOfSectors > 0 {
        Refill(n);
        interrupts := interrupts + 1;
      } else {
        dataRequest := false;
        currentSector := nextSector;
        Idle();
      }
    }

    lemma NextOver()
      ensures var n := BlockSectors(command, numberOfSectors, multipleSectors);
              forall k: nat | Over(k) ::
                if numberOfSectors > 0 then Paced(Per(command, multipleSectors), total, numberOfSectors - n, n, k + 1)
                else AllOver(k)
    {
      var n := BlockSectors(command, numberOfSectors, multipleSectors);
      forall k: nat | Over(k)
        ensures if numberOfSectors > 0 then Paced(Per(command, multipleSectors), total, numberOfSectors - n, n, k + 1)
                else AllOver(k)
      {
        NextPaced(Per(command, multipleSectors), total, numberOfSectors, block, k, n);
      }
    }

    /** The status at the end of a block. */
    method Finish()
      modifies `busy, `error, `currentSector
      ensures !busy && !error && currentSector == nextSector
    {
      busy, error := false, false;
      currentSector := nextSector;
    }

    lemma Idle()
      requires Shape() && !dataRequest
      ensures Valid()
    {
    }

    /** The next bytes of the buffer are the next bytes of the image. */
    lemma Next(length: nat)
      requires Serving() && bufferIndex + length <= bufferSize
      ensures SECTOR * start + taken + length <= |disk|
      ensures buffer[bufferIndex..bufferIndex + length] == disk[SECTOR * start + taken..SECTOR * start + taken + length]
    {
      var at := SECTOR * (start + total - numberOfSectors - block);
      assert at + bufferIndex == SECTOR * start + taken;
      var next := buffer[bufferIndex..bufferIndex + length];
      var image := disk[SECTOR * start + taken..SECTOR * start + taken + length];
      forall k | 0 <= k < length
        ensures next[k] == image[k]
      {
        var j := bufferIndex + k;
        assert buffer[j] == buffer[..bufferSize][j] == disk[at..at + bufferSize][j] == disk[at + j];
      }
      assert next == image;
    }

    /** Reads of one width never straddle the end of a block. */
    lemma Aligned(length: nat)
      requires Transferring() && Width(length)
      ensures Multiple(taken, length) ==> bufferIndex + length <= bufferSize
    {
      var k := total - numberOfSectors - block;
      assert taken == SECTOR * k + bufferIndex && bufferSize == SECTOR * block;
      hide Serving, Multiple, Width;
      if Multiple(taken, length) {
        WholeSectors(k, length);
        MultipleMinus(taken, SECTOR * k, length);
        WholeSectors(block, length);
        RoomBetween(bufferIndex, bufferSize, length);
      }
    }

    /** A read of the data port. */
    method ReadPort0(length: nat) returns (data: seq<Byte>)
      requires Valid() && Width(length)
      modifies this, buffer
      ensures Valid() && start == old(start) && total == old(total)
      ensures old(dataRequest && bufferIndex + length <= bufferSize) ==>
                && taken == old(taken) + length && SECTOR * start + taken <= |disk|
                && data == Part(disk, SECTOR * start + old(taken), SECTOR * start + taken)
                && taken <= SECTOR * total && (dataRequest <==> taken < SECTOR * total)
      ensures !old(dataRequest && bufferIndex + length <= bufferSize) ==>
                data == Zeros(length) && taken == old(taken) && dataRequest == old(dataRequest)
      ensures old(dataRequest && Multiple(taken, length)) ==> taken == old(taken) + length
      ensures interrupts == old(interrupts)
              + if old(dataRequest && bufferIndex + length == bufferSize) && dataRequest then 1 else 0
      ensures command == old(command) && multipleSectors == old(multipleSectors) && errorRegister == old(errorRegister)
      ensures if old(dataRequest && bufferIndex + length == bufferSize)
              then !busy && !error && currentSector == old(nextSector)
              else
                && busy == old(busy) && error == old(error)
                && currentSector == old(currentSector) && nextSector == old(nextSector)
      ensures forall k: nat | old(Over(k)) && old(dataRequest) ::
                if dataRequest then Over(k + (interrupts - old(interrupts)))
                else AllOver(k) && interrupts == old(interrupts)
    {
      hide Linear, Room, Increment, Registers, IsRead, IsMultiple, Initialised, Zeros, Copied, BlockSectors;
      hide Over, AllOver, Filled, Ahead;
      data := Zeros(length);
      if !dataRequest {
        return;
      }
      if bufferIndex >= bufferSize {
        // The process would exit here.
        assert false;
      }
      Aligned(length);
      if bufferSize < bufferIndex + length {
        return;
      }
      Next(length);
      data := buffer[bufferIndex..bufferIndex + length];
      bufferIndex := bufferIndex + length;
      taken := taken + length;
      assert forall k: nat | old(Over(k)) :: Over(k);
      if bufferSize > bufferIndex {
        return;
      }
      NextBlock();
    }

    /** HardDiskLba48Transform: the count registers of the command become the number of sectors to read. */
    method Lba48Transform(ext: bool)
      requires Shape()
      modifies `address, `numberOfSectors
      ensures Shape() && address == old(address).(lba48 := ext)
      ensures numberOfSectors == Requested(ext, sectorCount, hobNsector)
    {
      address := address.(lba48 := ext);
      if !ext {
        if sectorCount == 0 {
          numberOfSectors := 256;
        } else {
          numberOfSectors := sectorCount;
        }
      } else {
        if sectorCount == 0 && hobNsector == 0 {
          numberOfSectors := 65536;
        } else {
          numberOfSectors := 0x100 * hobNsector + sectorCount;
        }
      }
    }

    method CommandAborted()
      modifies `command, `busy, `error, `errorRegister, `dataRequest, `bufferIndex, `interrupts
      ensures command == 0 && !busy && error && errorRegister == 4 && !dataRequest && bufferIndex == 0
      ensures interrupts == old(interrupts) + 1
    {
      command := 0;
      busy := false;
      error := true;
      errorRegister := 4;
      dataRequest := false;
      bufferIndex := 0;
      interrupts := interrupts + 1;
    }

    /** The first sector the command would read, and how many. */
    ghost function First(value: nat): nat
      reads `address
      requires Registers(address)
    {
      Linear(address.(lba48 := IsExt(value)))
    }

    ghost function Count(value: nat): nat
      reads `sectorCount, `hobNsector
      requires sectorCount < 0x100 && hobNsector < 0x100
    {
      Requested(IsExt(value), sectorCount, hobNsector)
    }

    /** The command is refused: not a disk, an all-zero CHS address, an unset block size, or a first sector
        past the end. */
    ghost predicate Refused(value: nat)
      reads `address, `multipleSectors
      requires Registers(address)
    {
      || !isDisk
      || (!address.lba && address.head == 0 && address.cylinder == 0 && address.sector == 0)
      || (IsMultiple(value) && multipleSectors == 0)
      || |disk| / SECTOR <= First(value)
    }

    /** The whole range is on the disk, the encoding can count through it, and a block fits the buffer. */
    ghost predicate InRange(value: nat)
      reads `address, `sectorCount, `hobNsector, `multipleSectors
      requires Shape()
    {
      && Room(address.(lba48 := IsExt(value)), Count(value))
      && SECTOR * (First(value) + Count(value)) <= |disk|
      && BlockSectors(value, Count(value), multipleSectors) <= MAX_SECTORS_PER_BLOCK
    }

    lemma NoSuchSector()
      requires Registers(address) && (address.lba || address.head > 0 || address.cylinder > 0 || address.sector > 0)
      ensures LogicalAddress() == 0xFFFF_FFFF_FFFF_FFFF <==> |disk| / SECTOR <= Linear(address)
      ensures |disk| / SECTOR > Linear(address) ==> LogicalAddress() == Linear(address)
    {
      if !address.lba {
        ChsSmall(address);
      }
    }

    /** The first block of the command. */
    method SizeFirstBlock(value: nat)
      modifies `bufferSize
      ensures bufferSize == SECTOR * BlockSectors(value, numberOfSectors, multipleSectors)
    {
      if IsMultiple(value) {
        if numberOfSectors > multipleSectors {
          bufferSize := multipleSectors * SECTOR;
        } else {
          bufferSize := numberOfSectors * SECTOR;
        }
      } else {
        bufferSize := SECTOR;
      }
    }

    /** The registers of an accepted command. */
    method Accept(value: nat, l: nat) returns (ghost n: nat)
      requires Shape() && IsRead(value) && numberOfSectors > 0 && Ahead(l, numberOfSectors)
      requires var n := BlockSectors(value, numberOfSectors, multipleSectors);
               bufferSize == SECTOR * n && n <= MAX_SECTORS_PER_BLOCK
      requires IsMultiple(value) ==> multipleSectors > 0
      modifies `start, `total, `taken, `nextSector, `command, `errorRegister, `busy
      ensures Ready(n)
      ensures n == BlockSectors(value, numberOfSectors, multipleSectors)
      ensures taken == 0 && start == l && total == numberOfSectors && command == value && errorRegister == 0 && busy
    {
      hide Registers, Linear, Room, IsRead, IsMultiple, Initialised;
      n := BlockSectors(value, numberOfSectors, multipleSectors);
      BlockBounds(value, numberOfSectors, multipleSectors);
      hide BlockSectors;
      start, total, taken := l, numberOfSectors, 0;
      nextSector := l;
      command := value;
      errorRegister := 0;
      busy := true;
    }

    /** An accepted command: the first block is loaded, without an interrupt. */
    method Begin(value: nat, l: nat)
      requires Shape() && IsRead(value) && numberOfSectors > 0 && Ahead(l, numberOfSectors)
      requires var n := BlockSectors(value, numberOfSectors, multipleSectors);
               bufferSize == SECTOR * n && n <= MAX_SECTORS_PER_BLOCK
      requires IsMultiple(value) ==> multipleSectors > 0
      modifies this, buffer
      ensures Valid() && Transferring()
      ensures taken == 0 && start == l && total == old(numberOfSectors) && command == value
      ensures interrupts == old(interrupts) && multipleSectors == old(multipleSectors)
      ensures !busy && errorRegister == 0 && error == old(error) && Over(0)
    {
      hide Shape, IsRead, IsMultiple, Serving, Transferring, Valid, Ahead, BlockSectors, Ready;
      FirstPaced(value, numberOfSectors, multipleSectors);
      ghost var n := Accept(value, l);
      Refill(n);
      busy := false;
    }

    /** The READ arm of the command port. */
    method ReadCommand(value: nat)
      requires Shape() && IsRead(value) && (Refused(value) || InRange(value))
      modifies this, buffer
      ensures Valid() && multipleSectors == old(multipleSectors)
      ensures old(Refused(value)) ==> !dataRequest && error && errorRegister == 4 && interrupts == old(interrupts) + 1
      ensures !old(Refused(value)) ==>
                && Transferring() && taken == 0 && start == old(First(value)) && total == old(Count(value))
                && command == value && interrupts == old(interrupts) && !busy && errorRegister == 0
                && error == old(error) && Over(0)
    {
      hide Linear, Room, IsRead, IsMultiple, Serving, BlockSectors, Requested, Filled, Counts, Initialised;
      if !isDisk {
        CommandAborted();
        return;
      }
      if !address.lba && address.head == 0 && address.cylinder == 0 && address.sector == 0 {
        CommandAborted();
        return;
      }
      Lba48Transform(IsExt(value));
      if IsMultiple(value) {
        if multipleSectors == 0 {
          CommandAborted();
          return;
        }
      }
      SizeFirstBlock(value);
      NoSuchSector();
      var l := LogicalAddress();
      if l == 0xFFFF_FFFF_FFFF_FFFF {
        CommandAborted();
        return;
      }
      Begin(value, l);
    }

    lemma Opening()
      requires Transferring() && taken == 0
      ensures Valid() && dataRequest && SECTOR * (start + total) <= |disk| && total > 0
    {
    }

    /** One interrupt since base for every block that is over, or, at the end, for every block after the first. */
    ghost predicate Told(base: nat)
      reads `command, `multipleSectors, `numberOfSectors, `total, `block, `dataRequest, `interrupts
    {
      interrupts >= base && if dataRequest then Over(interrupts - base) else AllOver(interrupts - base)
    }

    /** A read in a row of reads of one width. */
    method ReadNext(length: nat, ghost base: nat) returns (data: seq<Byte>)
      requires Valid() && dataRequest && Width(length) && Multiple(taken, length)
      modifies this, buffer
      ensures Valid() && start == old(start) && total == old(total) && SECTOR * start + taken <= |disk|
      ensures taken == old(taken) + length && Multiple(taken, length) && taken <= SECTOR * total
      ensures dataRequest <==> taken < SECTOR * total
      ensures data == Part(disk, SECTOR * start + old(taken), SECTOR * start + taken)
      ensures command == old(command) && multipleSectors == old(multipleSectors)
      ensures old(Told(base)) ==> Told(base)
    {
      Aligned(length);
      MultiplePlus(taken, length);
      hide Serving, Shape, Zeros, Multiple, Part, Over, AllOver;
      data := ReadPort0(length);
    }

    /** Reads with one width until no more data is requested. */
    method Drain(length: nat) returns (data: seq<Byte>)
      requires Valid() && Width(length) && Multiple(taken, length) && taken == 0
      requires SECTOR * start <= |disk| && (dataRequest <==> taken < SECTOR * total)
      modifies this, buffer
      ensures !dataRequest && start == old(start) && total == old(total) && taken == SECTOR * total
      ensures SECTOR * start + taken <= |disk| && data == Part(disk, SECTOR * start, SECTOR * start + taken)
      ensures command == old(command) && multipleSectors == old(multipleSectors)
      ensures old(Told(interrupts)) ==> Told(old(interrupts))
    {
      assert Part(disk, SECTOR * start, SECTOR * start) == [];
      hide Valid, Multiple, Width, Part, Told;
      ghost var base := interrupts;
      data := [];
      while dataRequest
        invariant Valid() && start == old(start) && total == old(total) && Multiple(taken, length)
        invariant SECTOR * start + taken <= |disk| && taken <= SECTOR * total
        invariant dataRequest <==> taken < SECTOR * total
        invariant data == Part(disk, SECTOR * start, SECTOR * start + taken)
        invariant command == old(command) && multipleSectors == old(multipleSectors)
        invariant old(Told(interrupts)) ==> Told(base)
        decreases SECTOR * total - taken
      {
        ghost var before := taken;
        var next := ReadNext(length, base);
        Join(disk, SECTOR * start, SECTOR * start + before, SECTOR * start + taken);
        data := data + next;
      }
    }

    /** A guest that reads the data port with one width until no more data is requested gets the whole range, with an
        interrupt for every block after the first. */
    method ReadAll(length: nat) returns (data: seq<Byte>)
      requires Transferring() && taken == 0 && Width(length)
      modifies this, buffer
      ensures !dataRequest && start == old(start) && total == old(total)
      ensures SECTOR * (start + total) <= |disk| && data == Part(disk, SECTOR * start, SECTOR * (start + total))
      ensures command == old(command) && multipleSectors == old(multipleSectors)
      ensures old(Over(0)) ==> interrupts >= old(interrupts) && AllOver(interrupts - old(interrupts))
    {
      Opening();
      assert Multiple(taken, length);
      hide Serving, Transferring, Valid, Multiple, Width, Part, Over, AllOver;
      data := Drain(length);
    }
  }
}
