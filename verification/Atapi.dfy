/**
 ATAPI READ(10)/READ(12) over PIO: the command set-up with the guest's byte-count limit, and the data-port
 reads that cut the stream of 2048-byte blocks into DRQ phases.
 */
module Atapi {
  import opened Arith
  import opened Bytes
  import opened Widths

  const BLOCK := 2048
  const DWORD := 0x1_0000_0000
  const QWORD := 0x1_0000_0000_0000_0000

  function Min(a: nat, b: nat): nat {
    if a < b then a else b
  }

  /** As an unsigned DWORD. */
  function Wrapped(n: int): nat {
    n % DWORD
  }

  lemma OneLess(n: int)
    ensures Wrapped(Wrapped(n) - 1) == Wrapped(n - 1)
  {
  }

  /** The byte count of a full phase: an odd limit is rounded down when it cuts the transfer. */
  function Grant(limit: nat, bytes: nat): (g: nat)
    ensures g <= limit && g <= bytes
  {
    Min(if limit % 2 == 1 && bytes > limit then limit - 1 else limit, bytes)
  }

  /** A command that allocates nothing is limited by the byte count. */
  function Alloc(limit: nat, bytes: nat): nat {
    if bytes == 0 then limit else bytes
  }

  /** A limit of 2 or more grants an even, nonzero number of bytes that respects it. */
  lemma GrantBounds(limit: nat, bytes: nat)
    requires limit >= 2 && bytes >= 2 && Multiple(bytes, 2)
    ensures 0 < Grant(limit, bytes) <= limit && Multiple(Grant(limit, bytes), 2)
  {
    if limit % 2 == 1 {
      assert Multiple(limit - 1, 2);
    }
  }

  lemma UpTwo(p: nat)
    ensures var u := (p + 1) / 2 * 2; p <= u < p + 2 && u % 2 == 0 && (u == p <==> p % 2 == 0)
  {
    DivMod((p + 1) / 2 * 2, (p + 1) / 2, 2, 0);
  }

  lemma UpFour(p: nat)
    ensures var u := (p + 3) / 4 * 4; p <= u < p + 4 && u % 4 == 0 && (u == p <==> p % 4 == 0)
  {
    DivMod((p + 3) / 4 * 4, (p + 3) / 4, 4, 0);
  }

  lemma GrantPositive(limit: nat, bytes: nat)
    requires limit >= 2 && bytes >= 2
    ensures Grant(limit, bytes) > 0
  {
  }

  /** Respecting the limit, and even unless the whole transfer fits it. */
  predicate Respects(limit: nat, bytes: nat, g: nat) {
    g <= limit && g <= bytes && (bytes <= limit || g % 2 == 0)
  }

  /** No larger count does so. */
  lemma GrantIsLargest(limit: nat, bytes: nat, g: nat)
    ensures Respects(limit, bytes, Grant(limit, bytes))
    ensures Respects(limit, bytes, g) ==> g <= Grant(limit, bytes)
  {
  }

  /** p rounded up to whole reads of width w. */
  function Up(p: nat, w: nat): (u: nat)
    requires Width(w)
    ensures u >= p && Multiple(u, w) && (u == p <==> Multiple(p, w)) && u < p + w
  {
    if w == 1 then
      p
    else if w == 2 then
      UpTwo(p);
      (p + 1) / 2 * 2
    else
      UpFour(p);
      (p + 3) / 4 * 4
  }

  /** The bytes taken over the phases that are left, each ended by the first read that reaches its count. */
  function PhaseBytes(remaining: nat, grant: nat, w: nat): nat
    requires grant > 0 && Width(w)
    decreases remaining
  {
    if remaining == 0 then 0
    else
      var p := Min(grant, remaining);
      Up(p, w) + PhaseBytes(remaining - p, grant, w)
  }

  lemma {:induction false} PhasesFrom(remaining: nat, grant: nat, w: nat)
    requires grant > 0 && Width(w)
    ensures PhaseBytes(remaining, grant, w) >= remaining
    ensures Multiple(grant, w) && Multiple(remaining, w) ==> PhaseBytes(remaining, grant, w) == remaining
  {
    hide Up, Multiple, Width;
    if remaining > 0 {
      var p := Min(grant, remaining);
      PhasesFrom(remaining - p, grant, w);
      if Multiple(grant, w) && Multiple(remaining, w) {
        MultipleMinus(remaining, p, w);
      }
    }
  }

  /** The guest takes exactly the bytes of the command if and only if its reads fit the granted count evenly. */
  lemma {:induction false} PhaseBytesIff(remaining: nat, grant: nat, w: nat)
    requires Width(w) && Multiple(remaining, w) && 0 < grant <= remaining
    ensures PhaseBytes(remaining, grant, w) == remaining <==> Multiple(grant, w)
  {
    hide Up, Multiple, Width;
    PhasesFrom(remaining - grant, grant, w);
    if Multiple(grant, w) {
      MultipleMinus(remaining, grant, w);
    }
  }

  /** Lowering the count to what is left changes nothing. */
  lemma ClipGrant(remaining: nat, grant: nat, w: nat)
    requires remaining > 0 && grant > 0 && Width(w)
    ensures PhaseBytes(remaining, Min(grant, remaining), w) == PhaseBytes(remaining, grant, w)
  {
  }

  /** A phase that counts reads of width w ends exactly at its count rounded up. */
  lemma PhaseEnd(index: nat, count: nat, w: nat)
    requires Width(w) && Multiple(index, w) && index < count <= index + w
    ensures index + w == Up(count, w)
  {
  }

  /** A read of the width of the earlier ones stays inside the block. */
  lemma ReadFits(loaded: nat, index: nat, taken: nat, w: nat)
    requires Width(w) && loaded > 0 && taken == BLOCK * (loaded - 1) + index && Multiple(taken, w) && index < BLOCK
    ensures index + w <= BLOCK
  {
    WholeBlocks(loaded - 1, w);
    MultipleMinus(taken, BLOCK * (loaded - 1), w);
    WholeBlocks(1, w);
    RoomBetween(index, BLOCK, w);
  }

  lemma WholeBlocks(k: nat, w: nat)
    requires Width(w)
    ensures Multiple(BLOCK * k, w)
  {
    if w == 2 {
      DivMod(BLOCK * k, 1024 * k, 2, 0);
    } else if w == 4 {
      DivMod(BLOCK * k, 512 * k, 4, 0);
    }
  }

  /** The last block, in 64-bit arithmetic. */
  function Last(capacity: nat): nat {
    (capacity - 1) % QWORD
  }

  /** The range check of READ(10) and READ(12), with products and sums in 32 bits; it compares bytes with blocks. */
  predicate Rejected(lba: nat, n: nat, capacity: nat) {
    var bytes := n * BLOCK % DWORD;
    || bytes < n || bytes > Last(capacity) || lba > Last(capacity)
    || (lba + n) % DWORD < lba || (lba + n - 1) % DWORD < lba || (bytes + lba) % DWORD < lba
  }

  /** The number of blocks after clipping at the end of the disc. */
  function Clipped(lba: nat, n: nat, capacity: nat): nat {
    if (lba + n - 1) % QWORD > Last(capacity) then Wrapped(Last(capacity) - lba + 1) else n
  }

  /** The check compares bytes with blocks: a READ from a block of the disc raises an error if and only if its byte
      count reaches the number of blocks, whether or not it runs past the end; a READ of no blocks does unless it is
      at block 0. */
  lemma RejectedIff(lba: nat, n: nat, capacity: nat)
    requires lba < capacity <= 0x10_0000 && n < DWORD
    ensures Rejected(lba, n, capacity) <==> if n == 0 then lba > 0 else 2048 * n >= capacity
  {
    if n < 0x20_0000 {
      assert n * BLOCK % DWORD == n * BLOCK;
    }
  }

  lemma ClippedIs(lba: nat, n: nat, capacity: nat)
    requires lba < DWORD && n < DWORD && capacity < DWORD
    ensures Clipped(lba, n, capacity)
            == if capacity > 0 && (lba + n > capacity || lba + n == 0) then Wrapped(capacity - lba) else n
  {
    hide Wrapped;
  }

  lemma WrappedIs(x: int)
    requires -DWORD < x < DWORD
    ensures Wrapped(x) == if x < 0 then x + DWORD else x
  {
  }

  /** A READ is served with blocks of the disc if and only if its first block is on it and it asks for at least one,
      or it asks for none at block 0: that one is taken for the whole disc. */
  lemma ServedIff(lba: nat, n: nat, capacity: nat)
    requires lba < DWORD && n < DWORD && capacity < DWORD
    ensures var count := Clipped(lba, n, capacity);
            && (count > 0 && lba + count <= capacity <==> lba < capacity && (n > 0 || lba == 0))
            && (lba < capacity && n > 0 ==> count == Min(n, capacity - lba))
            && (lba == 0 < capacity && n == 0 ==> count == capacity)
            && (lba == capacity > 0 || (n == 0 && 0 < lba <= capacity) ==> count == 0)
  {
    ClippedIs(lba, n, capacity);
    WrappedIs(capacity - lba);
    hide Clipped, Wrapped;
  }

  /** Reading the last blocks of a disc runs into its end if and only if the width does not divide the granted
      count. */
  lemma LastBlocksHaltIff(capacity: nat, n: nat, grant: nat, w: nat)
    requires Width(w) && n <= capacity && 0 < grant <= BLOCK * n
    ensures BLOCK * (capacity - n) + PhaseBytes(BLOCK * n, grant, w) > BLOCK * capacity <==> !Multiple(grant, w)
  {
    WholeBlocks(n, w);
    PhasesFrom(BLOCK * n, grant, w);
    PhaseBytesIff(BLOCK * n, grant, w);
  }

  /** So the exit can be reached: the last block of any disc, a limit of 6, and 32-bit reads. */
  lemma ShortReadReached(capacity: nat)
    requires capacity > 0
    ensures Grant(6, BLOCK) == 6 && BLOCK * (capacity - 1) + PhaseBytes(BLOCK, 6, 4) > BLOCK * capacity
  {
    LastBlocksHaltIff(capacity, 1, 6, 4);
  }

  function Sum(phases: seq<nat>): nat {
    if phases == [] then 0 else Sum(phases[..|phases| - 1]) + phases[|phases| - 1]
  }

  lemma SumPush(phases: seq<nat>, p: nat)
    ensures Sum(phases + [p]) == Sum(phases) + p
  {
    assert (phases + [p])[..|phases|] == phases;
  }

  /** What the guest still has to take until the whole number of bytes is reached. */
  ghost predicate Owed(whole: nat, taken: nat, index: nat, remaining: nat, count: nat, w: nat)
    requires Width(w)
  {
    && 0 < count <= remaining && index < count && Multiple(index, w)
    && PhaseBytes(remaining, count, w) + taken == whole + index
  }

  lemma OwedInside(whole: nat, taken: nat, index: nat, remaining: nat, count: nat, w: nat)
    requires Width(w) && Owed(whole, taken, index, remaining, count, w)
    ensures taken < whole
    ensures index + w < count ==> Owed(whole, taken + w, index + w, remaining, count, w)
  {
    MultiplePlus(index, w);
  }

  lemma OwedEnd(whole: nat, taken: nat, index: nat, remaining: nat, count: nat, w: nat)
    requires Width(w) && Owed(whole, taken, index, remaining, count, w) && index + w >= count
    ensures if remaining == count then taken + w == whole
            else Owed(whole, taken + w, 0, remaining - count, Min(count, remaining - count), w)
  {
    PhaseEnd(index, count, w);
    if remaining > count {
      ClipGrant(remaining - count, count, w);
    }
  }

  /** index bytes of the current block are taken, after loaded - 1 whole ones; before the first, loaded is 0. */
  ghost predicate Position(loaded: nat, index: nat, taken: nat) {
    0 < index <= BLOCK && taken == BLOCK * loaded + index - BLOCK
  }

  class Drive {
    const image: seq<Byte>
    const buffer: array<Byte>

    var bufferSize: nat
    var bufferIndex: nat
    var byteCount: nat
    var drqIndex: nat
    var drqBytes: nat
    var totalBytesRemaining: nat
    var lbAddress: nat
    var remainingBlocks: nat
    var busy: bool
    var dataRequest: bool
    var error: bool
    var dataPhase: bool
    var interrupts: nat
    var halted: bool

    // The command under way: its first block, its number of blocks, the blocks loaded, the bytes the guest
    // has taken, and the byte counts of the phases that are over.
    ghost var first: nat
    ghost var blocks: nat
    ghost var loaded: nat
    ghost var taken: nat
    ghost var phases: seq<nat>

    ghost predicate Shape()
      reads `byteCount
    {
      |image| < 0x8000_0000 && buffer.Length == 2356 && byteCount < 0x1_0000
    }

    function Capacity(): nat {
      |image| / BLOCK
    }

    /** The end of the last whole block. */
    function End(): nat {
      BLOCK * Capacity()
    }

    lemma EndInImage()
      ensures End() <= |image| < End() + BLOCK
    {
    }

    /** The buffer and the block counters agree with the bytes taken. */
    ghost predicate Loaded()
      reads `bufferSize, `bufferIndex, `lbAddress, `remainingBlocks, `first, `blocks, `loaded, `taken, buffer
    {
      && buffer.Length == 2356 && bufferSize == BLOCK && Position(loaded, bufferIndex, taken)
      && lbAddress == first + loaded && remainingBlocks == Wrapped(blocks - loaded)
      && BLOCK * (first + loaded) <= End() <= |image|
      && (loaded > 0 ==> buffer[..BLOCK] == image[BLOCK * (first + loaded - 1)..BLOCK * (first + loaded)])
    }

    /** The phase counters add up to the command. */
    ghost predicate Phased()
      reads `byteCount, `drqIndex, `drqBytes, `totalBytesRemaining, `blocks, `phases
    {
      && Sum(phases) + totalBytesRemaining == BLOCK * blocks
      && 0 < drqBytes == byteCount <= totalBytesRemaining && drqIndex < drqBytes
    }

    /** A phase of a READ is open, or about to be. */
    ghost predicate Streaming()
      reads `byteCount, `drqIndex, `drqBytes, `totalBytesRemaining, `blocks, `phases
      reads `bufferSize, `bufferIndex, `lbAddress, `remainingBlocks, `first, `loaded, `taken, buffer
    {
      Shape() && Loaded() && Phased()
    }

    /** CdRomReadBlock: the bytes read, fewer than a block at the end of the image. */
    method ReadBlock(lba: nat) returns (n: nat)
      requires buffer.Length >= BLOCK
      modifies buffer
      ensures n == if BLOCK * lba >= |image| then 0 else Min(BLOCK, |image| - BLOCK * lba)
      ensures n > 0 ==> buffer[..n] == image[BLOCK * lba..BLOCK * lba + n]
      ensures n == BLOCK <==> lba < Capacity()
    {
      EndInImage();
      n := if BLOCK * lba >= |image| then 0 else Min(BLOCK, |image| - BLOCK * lba);
      if n > 0 {
        forall j | 0 <= j < n {
          buffer[j] := image[BLOCK * lba + j];
        }
      }
    }

    /** HardDiskInitAtapiCommand, for a command without packet DMA. */
    method InitCommand(reqLength: nat, allocLength: nat)
      modifies `byteCount, `busy, `dataRequest, `error, `bufferIndex, `drqIndex, `drqBytes, `totalBytesRemaining
      ensures byteCount <= old(byteCount)
      ensures var alloc := Alloc(old(byteCount), allocLength);
              Grant(old(byteCount), alloc) > 0 ==>
                && byteCount == Min(reqLength, Grant(old(byteCount), alloc))
                && busy && !dataRequest && !error && bufferIndex == 0 && drqIndex == 0
                && drqBytes == byteCount && totalBytesRemaining == Min(reqLength, alloc)
      ensures Grant(old(byteCount), Alloc(old(byteCount), allocLength)) == 0 ==>
                && byteCount == 0 && dataRequest == old(dataRequest) && busy == old(busy)
                && drqBytes == old(drqBytes) && totalBytesRemaining == old(totalBytesRemaining)
    {
      if byteCount % 2 == 1 && allocLength > byteCount {
        byteCount := byteCount - 1;
      }
      if byteCount == 0 {
        return;
      }
      var alloc := if allocLength == 0 then byteCount else allocLength;
      busy := true;
      dataRequest := false;
      error := false;
      bufferIndex := 0;
      drqIndex := 0;
      if byteCount > reqLength {
        byteCount := reqLength;
      }
      if byteCount > alloc {
        byteCount := alloc;
      }
      drqBytes := byteCount;
      totalBytesRemaining := Min(reqLength, alloc);
    }

    /** HardDiskAtapiError or HardDiskCommandNop, with its interrupt. */
    method EndCommand(failed: bool)
      modifies `error, `busy, `dataRequest, `dataPhase, `interrupts
      ensures error == failed && !busy && !dataRequest && !dataPhase && interrupts == old(interrupts) + 1
    {
      error := failed;
      busy := false;
      dataRequest := false;
      dataPhase := false;
      interrupts := interrupts + 1;
    }

    /** The counters of a READ of count blocks from lba. */
    method Arm(lba: nat, count: nat)
      requires Shape() && count < DWORD
      modifies this
      ensures Shape() && interrupts == old(interrupts) && dataPhase == old(dataPhase) && halted == old(halted)
      ensures Armed(old(byteCount), lba, count)
      ensures first == lba && blocks == count && loaded == 0 && taken == 0 && phases == []
    {
      hide Grant;
      bufferSize := BLOCK;
      InitCommand(Wrapped(count * BLOCK), Wrapped(count * BLOCK));
      SeekTo(lba, count);
    }

    /** The registers after the set-up, with a guest limit of so many bytes. A limit of 0 or 1 leaves the command
        without data. */
    ghost predicate Armed(limit: nat, lba: nat, count: nat)
      reads `bufferSize, `bufferIndex, `byteCount, `drqIndex, `drqBytes, `totalBytesRemaining, `lbAddress
      reads `remainingBlocks, `busy, `dataRequest, `error
    {
      var bytes := Wrapped(count * BLOCK);
      var grant := Grant(limit, Alloc(limit, bytes));
      && bufferIndex == bufferSize == BLOCK && lbAddress == lba && remainingBlocks == count
      && if grant == 0 then byteCount == 0
         else
           && busy && !dataRequest && !error && drqIndex == 0
           && byteCount == drqBytes == Min(bytes, grant) && totalBytesRemaining == bytes
    }

    /** The block counters of a READ; the buffer counts as used up. */
    method SeekTo(lba: nat, count: nat)
      modifies `bufferIndex, `lbAddress, `remainingBlocks, `first, `blocks, `loaded, `taken, `phases
      ensures bufferIndex == bufferSize && lbAddress == lba && remainingBlocks == count
      ensures first == lba && blocks == count && loaded == 0 && taken == 0 && phases == []
    {
      bufferIndex := bufferSize;
      lbAddress := lba;
      remainingBlocks := count;
      first, blocks, loaded, taken, phases := lba, count, 0, 0, [];
    }

    lemma AtFirstBlock(count: nat)
      requires Shape() && bufferIndex == bufferSize == BLOCK && lbAddress == first && remainingBlocks == blocks == count
      requires first + count <= Capacity() && loaded == 0 && taken == 0
      ensures Loaded() && Wrapped(count * BLOCK) == BLOCK * count
    {
      EndInImage();
      assert BLOCK * (first + count) <= End();
    }

    lemma AtFirstPhase(bytes: nat, grant: nat)
      requires phases == [] && drqIndex == 0 && totalBytesRemaining == bytes == BLOCK * blocks
      requires 0 < drqBytes == byteCount == grant <= bytes
      ensures Phased()
    {
    }

    /** With all its blocks on the disc, the command is ready to stream, its phases limited by the granted count. */
    lemma Prepared(limit: nat, lba: nat, count: nat)
      requires Shape() && Armed(limit, lba, count) && count > 0 && lba + count <= Capacity()
      requires first == lba && blocks == count && loaded == 0 && taken == 0 && phases == []
      ensures byteCount == Grant(limit, BLOCK * count)
      ensures byteCount > 0 ==> Streaming() && busy && !dataRequest && !error && drqIndex == 0
    {
      hide Shape, Loaded, Phased, Capacity, Wrapped, Grant;
      AtFirstBlock(count);
      if byteCount > 0 {
        AtFirstPhase(BLOCK * count, byteCount);
      }
    }

    /** The set-up of READ(10) and READ(12): a range past the end of the disc is clipped; a request that is too large
        raises an error, and goes on. */
    method StartRead(lba: nat, n: nat)
      requires Shape() && lba < DWORD && n < DWORD
      modifies this
      ensures Shape() && halted == old(halted)
      ensures var count := Clipped(lba, n, Capacity());
              && interrupts == old(interrupts) + (if Rejected(lba, n, Capacity()) then 1 else 0)
                               + (if count == 0 || count > Last(Capacity()) then 1 else 0)
              && Armed(old(byteCount), lba, count)
              && first == lba && blocks == count && loaded == 0 && taken == 0 && phases == []
    {
      hide Grant, Alloc, Rejected, Capacity, Armed;
      if Rejected(lba, n, Capacity()) {
        EndCommand(true);
      }
      var count := n;
      if (lba + count - 1) % QWORD > Last(Capacity()) {
        count := Wrapped(Last(Capacity()) - lba + 1);
      }
      if count == 0 || count > Last(Capacity()) {
        EndCommand(false);
      }
      Arm(lba, count);
    }

    /** HardDiskReadySendAtapi: the first data phase opens. */
    method ReadySend()
      requires Streaming()
      modifies `busy, `dataRequest, `error, `dataPhase, `interrupts
      ensures Streaming() && dataRequest && !busy && !error && dataPhase && interrupts == old(interrupts) + 1
    {
      hide Loaded, Phased;
      busy := false;
      dataRequest := true;
      error := false;
      dataPhase := true;
      interrupts := interrupts + 1;
    }

    /** Bytes of the current block are left in the buffer. */
    ghost predicate Ready()
      reads `bufferSize, `bufferIndex, `lbAddress, `remainingBlocks, `first, `blocks, `loaded, `taken, buffer
    {
      && buffer.Length == 2356 && bufferSize == BLOCK
      && bufferIndex < BLOCK && loaded > 0 && taken == BLOCK * (loaded - 1) + bufferIndex
      && lbAddress == first + loaded && remainingBlocks == Wrapped(blocks - loaded)
      && BLOCK * (first + loaded) <= End() <= |image|
      && buffer[..BLOCK] == image[BLOCK * (first + loaded - 1)..BLOCK * (first + loaded)]
    }

    /** Loads the next block once the one in the buffer is used up. A block that cannot be read whole ends the
        process, which is so exactly at the end of the disc. */
    method NextBlock()
      requires Loaded() && !halted
      modifies `bufferIndex, `lbAddress, `remainingBlocks, `loaded, `halted, buffer
      ensures halted <==> BLOCK * first + taken == End()
      ensures !halted ==> Ready()
      ensures bufferIndex == if old(bufferIndex) == BLOCK && !halted then 0 else old(bufferIndex)
    {
      EndInImage();
      assert End() == BLOCK * Capacity();
      hide End, Capacity, Wrapped;
      if bufferIndex == bufferSize {
        OneLess(blocks - loaded);
        var n := ReadBlock(lbAddress);
        if n != bufferSize {
          halted := true;
          return;
        }
        lbAddress := lbAddress + 1;
        remainingBlocks := Wrapped(remainingBlocks - 1);
        bufferIndex := 0;
        loaded := loaded + 1;
      }
    }

    lemma Held(length: nat)
      requires buffer.Length == 2356 && bufferIndex + length <= BLOCK
      requires loaded > 0 && BLOCK * (first + loaded) <= |image|
      requires buffer[..BLOCK] == image[BLOCK * (first + loaded - 1)..BLOCK * (first + loaded)]
      ensures var at := BLOCK * (first + loaded - 1) + bufferIndex;
              buffer[bufferIndex..bufferIndex + length] == Part(image, at, at + length)
    {
      forall j | bufferIndex <= j < bufferIndex + length
        ensures buffer[j] == image[BLOCK * (first + loaded - 1) + j]
      {
        assert buffer[j] == buffer[..BLOCK][j];
      }
    }

    /** A read would stay inside the block, or finds it used up. */
    ghost predicate Fits(length: nat)
      reads `bufferIndex
    {
      bufferIndex == BLOCK || bufferIndex + length <= BLOCK
    }

    /** An earlier read has gone past the end of the block. */
    ghost predicate Stuck()
      reads `bufferSize, `bufferIndex
    {
      bufferSize == BLOCK < bufferIndex
    }

    lemma NotStuck()
      requires Loaded()
      ensures !Stuck()
    {
    }

    lemma WidthFits(length: nat)
      requires Loaded() && Width(length) && Multiple(taken, length)
      ensures Fits(length)
    {
      hide Multiple, End, Wrapped;
      if bufferIndex < BLOCK {
        ReadFits(loaded, bufferIndex, taken, length);
      }
    }

    /** Takes bytes from the buffer; a read across the end of the block goes on into what lies behind it. */
    method FromBuffer(length: nat) returns (data: seq<Byte>)
      requires Ready() && Width(length)
      modifies `bufferIndex, `taken
      ensures old(bufferIndex) + length <= BLOCK ==>
                && Loaded() && taken == old(taken) + length && BLOCK * first + taken <= End() <= |image|
                && data == Part(image, BLOCK * first + old(taken), BLOCK * first + taken)
      ensures old(bufferIndex) + length > BLOCK ==>
                && Stuck() && |data| == length && taken == old(taken) + BLOCK - old(bufferIndex)
                && BLOCK * first + taken <= End() <= |image|
                && data[..BLOCK - old(bufferIndex)] == Part(image, BLOCK * first + old(taken), BLOCK * first + taken)
    {
      hide Wrapped, End, Part;
      ghost var held := if bufferIndex + length <= BLOCK then length else BLOCK - bufferIndex;
      Held(held);
      data := buffer[bufferIndex..bufferIndex + length];
      assert data[..held] == buffer[bufferIndex..bufferIndex + held];
      bufferIndex := bufferIndex + length;
      taken := taken + held;
    }

    /** The next bytes of the stream, as far as the block goes. */
    method Take(length: nat) returns (data: seq<Byte>)
      requires Loaded() && !halted && Width(length)
      modifies `bufferIndex, `lbAddress, `remainingBlocks, `loaded, `taken, `halted, buffer
      ensures halted <==> BLOCK * first + old(taken) == End()
      ensures halted ==> data == [] && taken == old(taken)
      ensures !halted && old(Fits(length)) ==>
                && Loaded() && taken == old(taken) + length && BLOCK * first + taken <= End() <= |image|
                && data == Part(image, BLOCK * first + old(taken), BLOCK * first + taken)
      ensures !halted && !old(Fits(length)) ==>
                && Stuck() && |data| == length && taken == old(taken) + BLOCK - old(bufferIndex)
                && BLOCK * first + taken <= End() <= |image|
                && data[..BLOCK - old(bufferIndex)] == Part(image, BLOCK * first + old(taken), BLOCK * first + taken)
    {
      hide Loaded, Ready, Part, End;
      NextBlock();
      if halted {
        return [];
      }
      data := FromBuffer(length);
    }

    /** The end of a phase: the next one opens, or the command completes. */
    method NextPhase()
      requires Sum(phases) + totalBytesRemaining == BLOCK * blocks && 0 < drqBytes == byteCount <= totalBytesRemaining
      modifies `dataRequest, `drqIndex, `totalBytesRemaining, `dataPhase, `busy, `byteCount, `drqBytes, `error,
               `interrupts, `phases
      ensures phases == old(phases) + [old(drqBytes)] && drqIndex == 0 && interrupts == old(interrupts) + 1
      ensures totalBytesRemaining == old(totalBytesRemaining) - old(drqBytes)
      ensures dataRequest == dataPhase == (totalBytesRemaining > 0) && !busy
      ensures error == (old(error) && dataRequest)
      ensures totalBytesRemaining > 0 ==> Phased() && byteCount == Min(old(byteCount), totalBytesRemaining)
      ensures totalBytesRemaining == 0 ==> Sum(phases) == BLOCK * blocks && byteCount == old(byteCount)
    {
      SumPush(phases, drqBytes);
      hide Sum;
      dataRequest := false;
      drqIndex := 0;
      phases := phases + [drqBytes];
      totalBytesRemaining := totalBytesRemaining - drqBytes;
      busy := false;
      if totalBytesRemaining > 0 {
        dataPhase := true;
        dataRequest := true;
        if totalBytesRemaining < byteCount {
          byteCount := totalBytesRemaining;
        }
        drqBytes := byteCount;
      } else {
        dataPhase := false;
        dataRequest := false;
        error := false;
      }
      interrupts := interrupts + 1;
    }

    /** The counters of the phase after a read. */
    method CountRead(length: nat)
      requires byteCount < 0x1_0000 && dataRequest && Phased()
      modifies `dataRequest, `drqIndex, `totalBytesRemaining, `dataPhase, `busy, `byteCount, `drqBytes, `error,
               `interrupts, `phases
      ensures byteCount <= old(byteCount) && (dataRequest ==> Phased())
      ensures old(drqIndex + length < drqBytes) ==>
                && dataRequest && drqIndex == old(drqIndex) + length && byteCount == old(byteCount)
                && totalBytesRemaining == old(totalBytesRemaining) && phases == old(phases)
                && interrupts == old(interrupts)
      ensures old(drqIndex + length >= drqBytes) ==>
                && phases == old(phases) + [old(drqBytes)] && drqIndex == 0 && interrupts == old(interrupts) + 1
                && totalBytesRemaining == old(totalBytesRemaining) - old(drqBytes)
                && (dataRequest <==> totalBytesRemaining > 0)
                && (dataRequest ==> byteCount == Min(old(byteCount), totalBytesRemaining))
                && (!dataRequest ==> Sum(phases) == BLOCK * blocks)
                && dataPhase == dataRequest && !busy && error == (old(error) && dataRequest)
    {
      hide Sum;
      drqIndex := drqIndex + length;
      if drqIndex >= drqBytes {
        NextPhase();
      }
    }

    /** A read of the data port. While a phase is open it takes the next bytes of the stream, or the process exits,
        at the end of the disc; a read that crosses the end of the block gets what is left of it, and after it every
        read gets zeros. */
    method ReadPort0(length: nat) returns (data: seq<Byte>)
      requires Shape() && !halted && Width(length) && (dataRequest ==> Streaming() || Stuck())
      modifies this, buffer
      ensures first == old(first) && blocks == old(blocks)
      ensures old(!dataRequest || Stuck()) ==> data == Zeros(length) && unchanged(this) && unchanged(buffer)
      ensures old(dataRequest && !Stuck()) ==> (halted <==> BLOCK * first + old(taken) == End())
      ensures halted ==> data == [] && taken == old(taken) && dataRequest && interrupts == old(interrupts)
      ensures old(dataRequest && !Stuck() && Fits(length)) && !halted ==>
                && Loaded() && taken == old(taken) + length && BLOCK * first + taken <= End() <= |image|
                && data == Part(image, BLOCK * first + old(taken), BLOCK * first + taken)
      ensures old(dataRequest && !Stuck() && !Fits(length)) ==>
                && !halted && Stuck() && taken == old(taken) + BLOCK - old(bufferIndex) && |data| == length
                && BLOCK * first + taken <= End() <= |image|
                && data[..BLOCK - old(bufferIndex)] == Part(image, BLOCK * first + old(taken), BLOCK * first + taken)
      ensures old(dataRequest && !Stuck()) && !halted ==>
                Shape() && byteCount <= old(byteCount) && (dataRequest ==> Phased())
      ensures old(dataRequest && !Stuck() && drqIndex + length < drqBytes) && !halted ==>
                && dataRequest && drqIndex == old(drqIndex) + length && byteCount == old(byteCount)
                && totalBytesRemaining == old(totalBytesRemaining) && phases == old(phases)
                && interrupts == old(interrupts)
      ensures old(dataRequest && !Stuck() && drqIndex + length >= drqBytes) && !halted ==>
                && phases == old(phases) + [old(drqBytes)] && drqIndex == 0 && interrupts == old(interrupts) + 1
                && totalBytesRemaining == old(totalBytesRemaining) - old(drqBytes)
                && (dataRequest <==> totalBytesRemaining > 0)
                && (dataRequest ==> byteCount == Min(old(byteCount), totalBytesRemaining))
                && (!dataRequest ==> Sum(phases) == BLOCK * blocks)
                && dataPhase == dataRequest && !busy && error == (old(error) && dataRequest)
    {
      data := Zeros(length);
      if !dataRequest || bufferIndex > bufferSize {
        return;
      }
      data := Take(length);
      if halted {
        return;
      }
      hide Loaded, Phased, Width, Part, Sum, End, Zeros, Min;
      CountRead(length);
    }

    /** The state of a guest that has read with one width from the start, and owes whole bytes in all. */
    ghost predicate Draining(whole: nat, grant: nat, n: nat, length: nat)
      requires Width(length)
      reads this, buffer
    {
      && Shape() && !halted && Loaded() && blocks == n && Multiple(taken, length)
      && taken <= whole && BLOCK * first + taken <= End() <= |image|
      && byteCount <= grant && (forall p | p in phases :: p <= grant)
      && if dataRequest then Phased() && Owed(whole, taken, drqIndex, totalBytesRemaining, byteCount, length)
         else taken == whole && Sum(phases) == BLOCK * blocks
    }

    /** One read of that guest. */
    method ReadNext(length: nat, ghost whole: nat, ghost grant: nat, ghost n: nat) returns (data: seq<Byte>)
      requires Width(length) && dataRequest && Draining(whole, grant, n, length)
      modifies this, buffer
      ensures first == old(first) && blocks == n
      ensures if halted then data == [] && taken == old(taken) < whole && BLOCK * first + taken == End() <= |image|
              else
                && Draining(whole, grant, n, length) && taken == old(taken) + length
                && taken <= whole && BLOCK * first + taken <= End() <= |image| && (dataRequest <==> taken < whole)
                && data == Part(image, BLOCK * first + old(taken), BLOCK * first + taken)
    {
      hide Width, Multiple, PhaseBytes, Owed, Loaded, Sum, Part, End;
      OwedInside(whole, taken, drqIndex, totalBytesRemaining, byteCount, length);
      if drqIndex + length >= byteCount {
        OwedEnd(whole, taken, drqIndex, totalBytesRemaining, byteCount, length);
      }
      MultiplePlus(taken, length);
      NotStuck();
      WidthFits(length);
      hide Fits, Stuck;
      data := ReadPort0(length);
      if !halted && dataRequest {
        OwedInside(whole, taken, drqIndex, totalBytesRemaining, byteCount, length);
      }
    }

    /** What that guest has got so far. */
    ghost predicate Got(data: seq<Byte>, whole: nat, grant: nat, n: nat, length: nat)
      requires Width(length)
      reads this, buffer
    {
      && blocks == n && taken <= whole && BLOCK * first + taken <= End() <= |image|
      && data == Part(image, BLOCK * first, BLOCK * first + taken)
      && if halted then BLOCK * first + taken == End() && taken < whole
         else Draining(whole, grant, n, length) && (dataRequest <==> taken < whole)
    }

    method GetNext(length: nat, data: seq<Byte>, ghost whole: nat, ghost grant: nat, ghost n: nat)
      returns (more: seq<Byte>)
      requires Width(length) && dataRequest && !halted && Got(data, whole, grant, n, length)
      modifies this, buffer
      ensures Got(more, whole, grant, n, length) && first == old(first) && taken <= whole
      ensures halted || taken > old(taken)
    {
      assert length > 0;
      hide Width, Draining, Part, End;
      ghost var before := taken;
      var next := ReadNext(length, whole, grant, n);
      if halted {
        return data;
      }
      Join(image, BLOCK * first, BLOCK * first + before, BLOCK * first + taken);
      more := data + next;
    }

    /** Reads with one width until no more data is requested or the process exits. */
    method Drain(length: nat, ghost whole: nat, ghost grant: nat, ghost n: nat) returns (data: seq<Byte>)
      requires Width(length) && Draining(whole, grant, n, length) && taken == 0
      modifies this, buffer
      ensures first == old(first) && blocks == n && (halted <==> BLOCK * first + whole > End())
      ensures BLOCK * first + taken <= End() <= |image| && data == Part(image, BLOCK * first, BLOCK * first + taken)
      ensures if halted then BLOCK * first + taken == End() else Draining(whole, grant, n, length) && !dataRequest
    {
      Drained(whole, grant, n, length);
      data := [];
      assert Got(data, whole, grant, n, length);
      hide Width, Part, End, Draining, Got;
      while dataRequest && !halted
        invariant Got(data, whole, grant, n, length) && first == old(first) && (halted || taken <= whole)
        decreases if halted then -1 else whole - taken
      {
        data := GetNext(length, data, whole, grant, n);
      }
      AllGot(data, whole, grant, n, length);
    }

    lemma AllGot(data: seq<Byte>, whole: nat, grant: nat, n: nat, length: nat)
      requires Width(length) && Got(data, whole, grant, n, length) && (halted || !dataRequest)
      ensures blocks == n && (halted <==> BLOCK * first + whole > End())
      ensures BLOCK * first + taken <= End() <= |image| && data == Part(image, BLOCK * first, BLOCK * first + taken)
      ensures if halted then BLOCK * first + taken == End() else Draining(whole, grant, n, length) && !dataRequest
    {
    }

    lemma Drained(whole: nat, grant: nat, n: nat, length: nat)
      requires Width(length) && Draining(whole, grant, n, length)
      ensures !halted && blocks == n && taken <= whole && (dataRequest <==> taken < whole)
      ensures BLOCK * first + taken <= End() <= |image| && Part(image, BLOCK * first, BLOCK * first) == []
    {
      if dataRequest {
        OwedInside(whole, taken, drqIndex, totalBytesRemaining, byteCount, length);
      }
    }

    /** A guest that reads with one width until no more data is requested, or until the process exits for a short
        read: it exits if and only if the phases run past the last block of the disc. Otherwise the guest gets the
        stream of the requested blocks, all of it and nothing else if and only if the width divides the granted
        count. */
    method ReadAll(length: nat) returns (data: seq<Byte>)
      requires Streaming() && !halted && dataRequest && Width(length) && taken == 0 && drqIndex == 0 && phases == []
      modifies this, buffer
      ensures first == old(first) && blocks == old(blocks)
      ensures halted <==> BLOCK * first + PhaseBytes(BLOCK * blocks, old(byteCount), length) > End()
      ensures BLOCK * first + |data| <= End() <= |image| && data == Part(image, BLOCK * first, BLOCK * first + |data|)
      ensures halted ==> BLOCK * first + |data| == End()
      ensures !halted ==>
                && !dataRequest && |data| == PhaseBytes(BLOCK * blocks, old(byteCount), length)
                && Sum(phases) == BLOCK * blocks && (forall p | p in phases :: p <= old(byteCount))
                && (|data| == BLOCK * blocks ==> remainingBlocks == 0)
      ensures first + blocks <= Capacity() ==>
                (!halted && |data| == BLOCK * blocks <==> Multiple(old(byteCount), length))
    {
      ghost var grant, n := byteCount, blocks;
      ghost var whole := PhaseBytes(BLOCK * blocks, grant, length);
      Opening(length);
      assert first + blocks <= Capacity() <==> BLOCK * first + BLOCK * blocks <= End();
      hide Width, Multiple, PhaseBytes, Draining, Part, Streaming, Sum, End, Capacity;
      data := Drain(length, whole, grant, n);
      if !halted {
        AtEnd(whole, grant, n, length);
      }
    }

    lemma Opening(length: nat)
      requires Streaming() && !halted && dataRequest && Width(length) && taken == 0 && drqIndex == 0 && phases == []
      ensures var whole := PhaseBytes(BLOCK * blocks, byteCount, length);
              Draining(whole, byteCount, blocks, length) && (whole == BLOCK * blocks <==> Multiple(byteCount, length))
    {
      WholeBlocks(blocks, length);
      PhaseBytesIff(BLOCK * blocks, byteCount, length);
    }

    /** The set-up of a READ within the disc, and its first phase. */
    method OpenRead(lba: nat, n: nat)
      requires Shape() && !halted && byteCount >= 2 && 0 < n < DWORD && lba + n <= Capacity()
      modifies this
      ensures Streaming() && !halted && dataRequest && first == lba && blocks == n
      ensures taken == 0 && drqIndex == 0 && phases == [] && byteCount == Grant(old(byteCount), BLOCK * n) > 0
    {
      EndInImage();
      GrantPositive(byteCount, BLOCK * n);
      ServedIff(lba, n, Capacity());
      ghost var limit := byteCount;
      hide Capacity, End, Grant, Clipped, Rejected, Armed, Last, Loaded, Phased, Sum;
      StartRead(lba, n);
      Prepared(limit, lba, n);
      ReadySend();
    }

    /** A whole READ with 16-bit accesses, once its first phase is opened: for every limit of 2 or more, however
        the transfer is cut into phases, the guest gets blocks lba to lba + n - 1, and the process goes on. */
    method ReadBlocks(lba: nat, n: nat) returns (data: seq<Byte>)
      requires Shape() && !halted && byteCount >= 2 && 0 < n < DWORD && lba + n <= Capacity()
      modifies this, buffer
      ensures BLOCK * (lba + n) <= |image| && data == Part(image, BLOCK * lba, BLOCK * (lba + n))
      ensures Sum(phases) == BLOCK * n && (forall p | p in phases :: p <= old(byteCount)) && remainingBlocks == 0
      ensures !dataRequest && !halted
    {
      ghost var grant := Grant(byteCount, BLOCK * n);
      WholeBlocks(n, 2);
      GrantBounds(byteCount, BLOCK * n);
      PhaseBytesIff(BLOCK * n, grant, 2);
      EndInImage();
      assert BLOCK * lba + BLOCK * n <= End();
      hide Capacity, End, Grant, PhaseBytes, Multiple, Streaming, Part, Sum;
      OpenRead(lba, n);
      data := ReadAll(2);
    }

    /** When all the bytes of the command are taken, no block is left. */
    lemma AtEnd(whole: nat, grant: nat, n: nat, length: nat)
      requires Width(length) && Draining(whole, grant, n, length) && !dataRequest
      ensures taken == whole && blocks == n && Sum(phases) == BLOCK * n && forall p | p in phases :: p <= grant
      ensures taken == BLOCK * n ==> remainingBlocks == 0
    {
    }
  }
}
