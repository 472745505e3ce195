/**
 What the guest sees of its writes: the byte it stores is the byte it reads back, and its bits are the pixels of
 the next picture, in the colours the palette registers give. Nothing here refers to how the core finds a pixel.
 */
module VgaPicture {
  import opened Bytes
  import opened VgaAlu
  import opened VgaLayout
  import opened VgaRefresh
  import opened VgaStale

  // ----- colours

  function Weight(on: bool, weight: nat): nat {
    if on then weight else 0
  }

  /** The attribute of four plane bits: planes that are not enabled count as clear. With blinking on, plane 3 is
      complemented in one phase of it and set in the other. */
  function Attribute(m: Mode, bits: Bits, visible: bool): (a: nat)
    ensures a < 16
  {
    var bit3 := bits.3 && m.colorPlaneEnable[3];
    Weight(bits.0 && m.colorPlaneEnable[0], 1) + Weight(bits.1 && m.colorPlaneEnable[1], 2)
    + Weight(bits.2 && m.colorPlaneEnable[2], 4)
    + Weight(if m.blinkIntensity then visible || !bit3 else bit3, 8)
  }

  /** Bit k of the colour a palette entry stands for: four or six bits of the entry, the colour select register
      above them, and all of it under the pel mask. */
  predicate ColourRule(m: Mode, entry: Byte, colour: Byte, k: nat)
    requires k < 8
  {
    colour[k] == (m.pelMask[k]
                  && if k < 4 || (k < 6 && !m.internalPaletteSize) then entry[k] else m.colorSelect[k - 4])
  }

  ghost predicate ColourOf(m: Mode, a: nat, colour: Byte)
    requires |m.palette| == 16 && a < 16
  {
    forall k | 0 <= k < 8 :: ColourRule(m, m.palette[a], colour, k)
  }

  lemma DacBit(m: Mode, entry: Byte, k: nat)
    requires k < 8
    ensures ColourRule(m, entry, Dac(m, entry), k)
  {
  }

  /** The colour of four plane bits obeys the rule in every bit. */
  lemma ColourIsRule(m: Mode, bits: Bits, visible: bool)
    requires |m.palette| == 16
    ensures ColourOf(m, Attribute(m, bits, visible), Colour(m, bits, visible))
  {
    var a := Attribute(m, bits, visible);
    assert Colour(m, bits, visible) == Dac(m, m.palette[a]);
    hide Dac, Colour, Attribute, ColourRule;
    forall k | 0 <= k < 8
      ensures ColourRule(m, m.palette[a], Colour(m, bits, visible), k)
    {
      DacBit(m, m.palette[a], k);
    }
  }

  // ----- planar pixels

  /** Pixel x is bit i from the left of byte column j; a halved dot clock shows every bit twice. */
  predicate BitOfColumn(m: Mode, x: nat, j: nat, i: nat)
    requires i < 8
  {
    if m.dotClockDiv2 then x == 16 * j + 2 * i || x == 16 * j + 2 * i + 1 else x == 8 * j + i
  }

  /** Screen line y shows memory line n, which counts from the start address above the line compare and from zero
      below it; double scan shows every line twice. */
  predicate LineOfScreen(m: Mode, y: nat, n: nat, split: bool) {
    var line := if split then m.lineCompare / (if m.doubleScan then 2 else 1) + 1 + n else n;
    && (if m.doubleScan then y == 2 * line || y == 2 * line + 1 else y == line)
    && (!split ==> line <= m.lineCompare / (if m.doubleScan then 2 else 1))
  }

  /** The guest offset of byte column j of memory line n. */
  function GuestOffset(m: Mode, j: nat, n: nat, split: bool): nat {
    (if split then 0 else m.startAddr) + n * m.lineOffset + j
  }

  lemma PixelPlace(m: Mode, x: nat, y: nat, j: nat, i: nat, n: nat, split: bool)
    requires m.layout.Planar? && i < 8 && BitOfColumn(m, x, j, i) && LineOfScreen(m, y, n, split)
    ensures Offset(m, x, y) == GuestOffset(m, j, n, split)
    ensures (if m.dotClockDiv2 then x / 2 else x) % 8 == i
  {
    assert ByteColumn(m, x) == j;
    assert ScanLine(m, y) == if split then ScanLineCompare(m) + 1 + n else n;
    hide ByteColumn, ScanLine;
  }

  /** Every planar pixel is some bit of some byte. */
  lemma EveryPixelHasAPlace(m: Mode, x: nat, y: nat) returns (j: nat, i: nat, n: nat, split: bool)
    ensures i < 8 && BitOfColumn(m, x, j, i) && LineOfScreen(m, y, n, split)
  {
    var column := if m.dotClockDiv2 then x / 2 else x;
    j, i := column / 8, column % 8;
    var (line, compare) := (if m.doubleScan then y / 2 else y, m.lineCompare / (if m.doubleScan then 2 else 1));
    split := line > compare;
    n := if split then line - compare - 1 else line;
  }

  /** Bit 7 - i of the four bytes at guest offset o. */
  function BitsAtOffset(memory: seq<Byte>, o: nat, i: nat): Bits
    requires |memory| == MEMORY_SIZE && o < PLANE_SIZE && i < 8
  {
    (memory[o][7 - i], memory[o + 0x1_0000][7 - i], memory[o + 0x2_0000][7 - i], memory[o + 0x3_0000][7 - i])
  }

  /** The plane bits behind a pixel are bit 7 - i of the four bytes at its offset. */
  lemma BitsOfPlace(m: Mode, memory: seq<Byte>, x: nat, y: nat, j: nat, i: nat, n: nat, split: bool)
    requires |memory| == MEMORY_SIZE && m.layout.Planar?
    requires i < 8 && BitOfColumn(m, x, j, i) && LineOfScreen(m, y, n, split)
    requires Offset(m, x, y) < PLANE_SIZE
    ensures var o := GuestOffset(m, j, n, split);
            o < PLANE_SIZE && PixelBits(m, memory, x, y) == BitsAtOffset(memory, o, i)
  {
    PixelPlace(m, x, y, j, i, n, split);
    hide Offset, BitOfColumn, LineOfScreen;
  }

  /** So a planar pixel of a full redraw has the colour of its attribute. */
  lemma PictureIsRule(m: Mode, memory: seq<Byte>, visible: bool, x: nat, y: nat, j: nat, i: nat, n: nat, split: bool)
    requires Valid(m) && |memory| == MEMORY_SIZE && m.layout.Planar? && Rendered(m, x, y)
    requires i < 8 && BitOfColumn(m, x, j, i) && LineOfScreen(m, y, n, split)
    ensures var o := GuestOffset(m, j, n, split);
            && o < PLANE_SIZE
            && ColourOf(m, Attribute(m, BitsAtOffset(memory, o, i), visible), Pixel(m, memory, visible, x, y))
  {
    OffsetInPlane(m, x, y);
    BitsOfPlace(m, memory, x, y, j, i, n, split);
    PixelIsColour(m, memory, visible, x, y);
    ColourIsRule(m, PixelBits(m, memory, x, y), visible);
    hide Valid, Offset, Colour, Pixel, PixelBits, Rendered, BitOfColumn, LineOfScreen, Attribute, ColourOf, GuestOffset;
  }

  // ----- a guest write on screen

  /** The screen shows, at (x, y), the colour of this attribute. */
  ghost predicate ScreenShows(m: Mode, s: Vga, x: nat, y: nat, a: nat)
    requires |m.palette| == 16 && a < 16
  {
    exists colour: Byte :: ColourOf(m, a, colour) && Shows(s, x, y, colour)
  }

  /** A current screen is the picture of memory. */
  lemma PictureShows(m: Mode, r: Vga, x: nat, y: nat, j: nat, i: nat, n: nat, split: bool)
    requires Valid(m) && |r.memory| == MEMORY_SIZE && ScreenCurrent(m, r) && m.layout.Planar? && Visible(m, x, y)
    requires i < 8 && BitOfColumn(m, x, j, i) && LineOfScreen(m, y, n, split)
    ensures var o := GuestOffset(m, j, n, split);
            o < PLANE_SIZE && ScreenShows(m, r, x, y, Attribute(m, BitsAtOffset(r.memory, o, i), r.csVisible))
  {
    VisibleIsRendered(m, x, y);
    PictureIsRule(m, r.memory, r.csVisible, x, y, j, i, n, split);
    hide Valid, Pixel, Rendered, BitOfColumn, LineOfScreen, Attribute, ColourOf, Visible, Shows, GuestOffset;
    assert PixelCurrent(m, r, x, y);
  }

  /** Plane q at the written pixel: bit 7 - i of the new byte in the plane written, of the old one in the others. */
  predicate PlaneBit(s: Vga, o: nat, p: nat, value: Byte, i: nat, q: nat)
    requires |s.memory| == MEMORY_SIZE && o < PLANE_SIZE && q < 4 && i < 8
  {
    if q == p then value[7 - i] else s.memory[o + q * 0x1_0000][7 - i]
  }

  function WrittenBits(s: Vga, o: nat, p: nat, value: Byte, i: nat): Bits
    requires |s.memory| == MEMORY_SIZE && o < PLANE_SIZE && i < 8
  {
    (PlaneBit(s, o, p, value, i, 0), PlaneBit(s, o, p, value, i, 1), PlaneBit(s, o, p, value, i, 2),
     PlaneBit(s, o, p, value, i, 3))
  }

  lemma StoredBits(m: Mode, s: Vga, o: nat, p: nat, value: Byte, i: nat)
    requires WellFormed(m, s) && m.layout.Planar? && StoresPlainly(s, p) && o < PLANE_SIZE && i < 8
    ensures var w := WriteStep(m, s, 0xA_0000 + o, value);
            |w.memory| == MEMORY_SIZE && BitsAtOffset(w.memory, o, i) == WrittenBits(s, o, p, value, i)
  {
    PlainStore(m, s, p, o, value);
    hide WriteStep, VgaLayout.Valid;
  }

  /** The state after a guest write and then a refresh that is not suppressed. */
  function Displayed(m: Mode, s: Vga, address: nat, value: Byte): (r: Vga)
    requires WellFormed(m, s)
    ensures |r.memory| == MEMORY_SIZE
  {
    StepWellFormed(m, s, Write(address, value));
    RefreshStep(m, WriteStep(m, s, address, value), false)
  }

  lemma Basics(m: Mode, s: Vga)
    requires Coherent(m, s)
    ensures WellFormed(m, s) && Valid(m) && |s.memory| == MEMORY_SIZE
  {
  }

  lemma OneWriteThenRefresh(m: Mode, s: Vga, address: nat, value: Byte)
    requires Coherent(m, s) && MarkingComplete(m)
    ensures var r := Displayed(m, s, address, value);
            Valid(m) && ScreenCurrent(m, r) && r.memory == WriteStep(m, s, address, value).memory
  {
    WriteKeepsCoherent(m, s, address, value);
    RefreshMemory(m, WriteStep(m, s, address, value));
    hide WriteStep, MarkingComplete, RefreshStep, ScreenCurrent;
    RefreshEqualsFullRedraw(m, WriteStep(m, s, address, value), []);
  }

  lemma RefreshMemory(m: Mode, s: Vga)
    requires WellFormed(m, s)
    ensures RefreshStep(m, s, false).memory == s.memory
  {
  }

  lemma InsideIsVisible(m: Mode, x: nat, y: nat)
    requires x < m.width && y <= m.verticalDisplayEnd
    ensures Visible(m, x, y)
  {
  }

  /** A plain write of one plane, then a refresh that is not suppressed: the byte's bits are on screen, from the
      most significant one on the left, in the colours of the palette, at the line and column of its address. */
  lemma PlanarWriteShows(m: Mode, s: Vga, p: nat, value: Byte, x: nat, y: nat, j: nat, i: nat, n: nat, split: bool)
    requires Coherent(m, s) && MarkingComplete(m) && m.layout.Planar? && StoresPlainly(s, p)
    requires x < m.width && y <= m.verticalDisplayEnd
    requires i < 8 && BitOfColumn(m, x, j, i) && LineOfScreen(m, y, n, split)
    ensures var o := GuestOffset(m, j, n, split);
            && o < PLANE_SIZE
            && var r := Displayed(m, s, 0xA_0000 + o, value);
               ScreenShows(m, r, x, y, Attribute(m, WrittenBits(s, o, p, value, i), r.csVisible))
  {
    hide *;
    Basics(m, s);
    InsideIsVisible(m, x, y);
    var o := GuestOffset(m, j, n, split);
    OneWriteThenRefresh(m, s, 0xA_0000 + o, value);
    var r := Displayed(m, s, 0xA_0000 + o, value);
    PictureShows(m, r, x, y, j, i, n, split);
    StoredBits(m, s, o, p, value, i);
  }

  lemma ChainedStore(m: Mode, s: Vga, o: nat, value: Byte)
    requires WellFormed(m, s) && m.layout.Chained? && o < PLANE_SIZE
    ensures var w := WriteStep(m, s, 0xA_0000 + o, value);
            GuestCell(m, o, 0) < |w.memory| == MEMORY_SIZE && w.memory[GuestCell(m, o, 0)] == value
  {
    hide VgaLayout.Valid;
  }

  lemma ChainedPicture(m: Mode, r: Vga, x: nat, y: nat, o: nat)
    requires Valid(m) && |r.memory| == MEMORY_SIZE && ScreenCurrent(m, r) && m.layout.Chained? && Visible(m, x, y)
    requires o < PLANE_SIZE && Reads(m, x, y, o) && GuestCell(m, o, 0) < MEMORY_SIZE
    ensures Shows(r, x, y, r.memory[GuestCell(m, o, 0)])
  {
    VisibleIsRendered(m, x, y);
    OffsetInPlane(m, x, y);
    PixelIsByte(m, r.memory, r.csVisible, x, y);
    hide Valid, Pixel, Rendered, Visible, Shows, Offset;
    assert PixelCurrent(m, r, x, y);
  }

  lemma ChainedPlace(m: Mode, x: nat, y: nat, j: nat, n: nat)
    requires Valid(m) && m.layout.Chained? && m.startAddr % 4 == 0 && Visible(m, x, y)
    requires (x == 2 * j || x == 2 * j + 1) && if m.doubleScan then y == 2 * n || y == 2 * n + 1 else y == n
    requires m.startAddr + n * m.lineOffset + j < PLANE_SIZE
    ensures Reads(m, x, y, m.startAddr + n * m.lineOffset + j)
  {
    ChainedReads(m, x, y, m.startAddr + n * m.lineOffset + j);
    assert ScanLine(m, y) == n && x / 2 == j;
    hide Valid, Reads, Visible, ScanLine;
  }

  /** The same in the chained layout: pixel x of a line shows byte x / 2 of it. */
  lemma ChainedWriteShows(m: Mode, s: Vga, value: Byte, x: nat, y: nat, j: nat, n: nat)
    requires Coherent(m, s) && MarkingComplete(m) && m.layout.Chained? && m.startAddr % 4 == 0
    requires x < m.width && y <= m.verticalDisplayEnd
    requires (x == 2 * j || x == 2 * j + 1) && if m.doubleScan then y == 2 * n || y == 2 * n + 1 else y == n
    requires m.startAddr + n * m.lineOffset + j < PLANE_SIZE
    ensures var o := m.startAddr + n * m.lineOffset + j;
            Shows(Displayed(m, s, 0xA_0000 + o, value), x, y, value)
  {
    hide *;
    Basics(m, s);
    InsideIsVisible(m, x, y);
    var o := m.startAddr + n * m.lineOffset + j;
    ChainedPlace(m, x, y, j, n);
    OneWriteThenRefresh(m, s, 0xA_0000 + o, value);
    var r := Displayed(m, s, 0xA_0000 + o, value);
    ChainedStore(m, s, o, value);
    ChainedPicture(m, r, x, y, o);
  }

  // ----- video memory

  /** The cells that offset o stands for: one in the chained layout, one per plane in the planar one. */
  predicate CellOf(m: Mode, o: nat, p: nat, cell: nat) {
    if m.layout.Chained? then p == 0 && cell == o / 4 * 4 + o % 4 * 0x1_0000 else p < 4 && cell == o + p * 0x1_0000
  }

  lemma OtherOffset(m: Mode, o: nat, p: nat, cell: nat, u: nat)
    requires o < PLANE_SIZE && u < PLANE_SIZE && u != o && CellOf(m, o, p, cell)
    ensures cell < MEMORY_SIZE && if m.layout.Chained? then cell != GuestCell(m, u, 0) else cell % PLANE_SIZE == o
  {
    if m.layout.Chained? {
      SameCell(o - o % 4, o % 4, u - u % 4, u % 4);
    }
  }

  predicate Stores(e: Event) {
    e.Write? && VGA_BASE <= e.address < VGA_BASE + PLANE_SIZE
  }

  lemma OtherStepsHold(m: Mode, s: Vga, e: Event)
    requires WellFormed(m, s) && ValidEvent(e) && !Stores(e)
    ensures Step(m, s, e).memory == s.memory && |s.memory| == MEMORY_SIZE
  {
    hide VgaLayout.Valid, Drawn, RefreshGate, Rendering, Block, GuestCell;
  }

  /** A step that does not write offset o keeps its cells. */
  lemma StepHolds(m: Mode, s: Vga, e: Event, o: nat, p: nat, cell: nat)
    requires WellFormed(m, s) && ValidEvent(e) && o < PLANE_SIZE && CellOf(m, o, p, cell)
    requires e.Write? ==> e.address != VGA_BASE + o
    ensures cell < MEMORY_SIZE == |s.memory| == |Step(m, s, e).memory|
    ensures Step(m, s, e).memory[cell] == s.memory[cell]
  {
    OtherOffset(m, o, p, cell, if o == 0 then 1 else 0);
    if Stores(e) {
      WriteHolds(m, s, e.address - VGA_BASE, e.value, o, p, cell);
    } else {
      OtherStepsHold(m, s, e);
    }
    hide WellFormed, CellOf, WriteStep, ReadStep, RedrawStep, RefreshStep, GuestCell;
  }

  lemma WriteHolds(m: Mode, s: Vga, u: nat, value: Byte, o: nat, p: nat, cell: nat)
    requires WellFormed(m, s) && o < PLANE_SIZE && u < PLANE_SIZE && u != o && CellOf(m, o, p, cell)
    ensures var w := WriteStep(m, s, VGA_BASE + u, value);
            cell < MEMORY_SIZE == |s.memory| == |w.memory| && w.memory[cell] == s.memory[cell]
  {
    OtherOffset(m, o, p, cell, u);
    hide VgaLayout.Valid, CellOf, NewPlanes, StorePlanes;
    if m.layout.Planar? {
      StorePlanesFrame(s.memory, u, 4, s.mapMask, NewPlanes(s, value), cell);
    }
  }

  lemma {:induction false} RunHolds(m: Mode, s: Vga, es: seq<Event>, o: nat, p: nat, cell: nat)
    requires WellFormed(m, s) && ValidRun(es) && o < PLANE_SIZE && CellOf(m, o, p, cell)
    requires forall e | e in es && e.Write? :: e.address != VGA_BASE + o
    ensures cell < MEMORY_SIZE == |s.memory| && Run(m, s, es).memory[cell] == s.memory[cell]
    decreases |es|
  {
    if es == [] {
      StepHolds(m, s, Read(0), o, p, cell);
    } else {
      StepWellFormed(m, s, es[0]);
      StepHolds(m, s, es[0], o, p, cell);
      hide Step, WellFormed, CellOf;
      RunHolds(m, Step(m, s, es[0]), es[1..], o, p, cell);
    }
  }

  /** Reading returns the selected plane's cell. */
  lemma ReadOfCell(m: Mode, s: Vga, o: nat, p: nat, cell: nat)
    requires WellFormed(m, s) && o < PLANE_SIZE && CellOf(m, o, p, cell)
    requires m.layout.Planar? ==> s.graphics.readMode == 0 && s.graphics.readMapSelect == p
    ensures cell < MEMORY_SIZE && ReadResult(m, s, 0xA_0000 + o) == s.memory[cell]
  {
    hide VgaLayout.Valid;
    assert (0xA_0000 + o) % PLANE_SIZE == o;
  }

  /** Video memory is memory: what a plain write stored, a read of that plane returns, whatever steps come in
      between, unless one of them writes the same address. */
  lemma ReadsBack(m: Mode, s: Vga, es: seq<Event>, o: nat, p: nat, value: Byte)
    requires WellFormed(m, s) && o < PLANE_SIZE && if m.layout.Chained? then p == 0 else StoresPlainly(s, p)
    requires ValidRun(es) && forall e | e in es && e.Write? :: e.address != 0xA_0000 + o
    ensures WellFormed(m, WriteStep(m, s, 0xA_0000 + o, value))
    ensures var r := Run(m, WriteStep(m, s, 0xA_0000 + o, value), es);
            m.layout.Chained? || (r.graphics.readMode == 0 && r.graphics.readMapSelect == p) ==>
              ReadResult(m, r, 0xA_0000 + o) == value
  {
    StepWellFormed(m, s, Write(0xA_0000 + o, value));
    var w := WriteStep(m, s, 0xA_0000 + o, value);
    var cell := if m.layout.Chained? then o / 4 * 4 + o % 4 * 0x1_0000 else o + p * 0x1_0000;
    assert CellOf(m, o, p, cell) && cell < MEMORY_SIZE == |w.memory| && w.memory[cell] == value by {
      if m.layout.Chained? { ChainedStore(m, s, o, value); } else { PlainStore(m, s, p, o, value); }
      hide WriteStep, VgaLayout.Valid;
    }
    RunHolds(m, w, es, o, p, cell);
    var r := Run(m, w, es);
    hide *;
    if m.layout.Chained? || (r.graphics.readMode == 0 && r.graphics.readMapSelect == p) {
      ReadOfCell(m, r, o, p, cell);
    }
  }
}
