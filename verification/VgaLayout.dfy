/**
 Where a pixel comes from and which tiles a guest write marks: the two address computations of
 the VGA core, which are written separately in the source, and exactly when they agree.

 The display registers are fixed in a `Mode`. Two memory layouts are modelled: `Chained`
 (256 colours, chain-four writes, doubleword display) and `Planar` (16 colours).
 */
module VgaLayout {
  import opened Arith
  import opened Bytes

  const X_TILESIZE := 16
  const Y_TILESIZE := 24
  const PLANE_SIZE := 0x1_0000
  const MEMORY_SIZE := 0x4_0000

  datatype Layout = Chained | Planar

  datatype Mode = Mode(
    layout: Layout,
    startAddr: nat, lineOffset: nat, lineCompare: nat, verticalDisplayEnd: nat, width: nat,
    dotClockDiv2: bool, doubleScan: bool, blinkIntensity: bool, blinkCounter: nat,
    palette: seq<Byte>, colorPlaneEnable: Byte, colorSelect: Byte, internalPaletteSize: bool, pelMask: Byte,
    numXTiles: nat, numYTiles: nat)

  function Columns(m: Mode): nat { (m.width + 15) / X_TILESIZE }

  function Rows(m: Mode): nat { (m.verticalDisplayEnd + 24) / Y_TILESIZE }

  predicate Rendered(m: Mode, x: nat, y: nat) {
    x < X_TILESIZE * Columns(m) && y < Y_TILESIZE * Rows(m)
  }

  /** Pixels inside the screen; the last tiles of a row or column may be rendered past it. */
  predicate Visible(m: Mode, x: nat, y: nat) {
    x < m.width && y <= m.verticalDisplayEnd
  }

  function TileOf(x: nat, y: nat): (nat, nat) {
    (x / X_TILESIZE, y / Y_TILESIZE)
  }

  /** What the CRTC registers guarantee, a screen within the tile array, and a display window
      that stays inside one 64K plane, as the array accesses of the refresh need. */
  ghost predicate Valid(m: Mode) {
    && m.startAddr < PLANE_SIZE && m.lineCompare < 1024 && m.verticalDisplayEnd < 1024
    && 0 < m.width && m.width % 8 == 0
    && m.lineOffset % (if m.layout.Chained? then 8 else 2) == 0
    && m.width <= X_TILESIZE * m.numXTiles && m.verticalDisplayEnd < Y_TILESIZE * m.numYTiles
    && 0 < m.blinkCounter && |m.palette| == 16
    && forall x: nat, y: nat | Rendered(m, x, y) :: Offset(m, x, y) < PLANE_SIZE
  }

  // ---------- display side ----------

  function ScanLine(m: Mode, y: nat): nat {
    if m.doubleScan then y / 2 else y
  }

  function ScanLineCompare(m: Mode): nat {
    if m.doubleScan then m.lineCompare / 2 else m.lineCompare
  }

  /** The byte column of pixel x. */
  function ByteColumn(m: Mode, x: nat): nat {
    if m.layout.Chained? then x / 2 - x / 2 % 4
    else if m.dotClockDiv2 then x / 2 / 8
    else x / 8
  }

  function LineStart(m: Mode, line: nat): nat {
    line * m.lineOffset
  }

  /** The offset within a plane of the byte behind pixel (x, y); below the line compare the
      planar screen restarts at offset zero. */
  function Offset(m: Mode, x: nat, y: nat): nat {
    var line := ScanLine(m, y);
    if m.layout.Planar? && line > ScanLineCompare(m)
    then ByteColumn(m, x) + LineStart(m, line - ScanLineCompare(m) - 1)
    else m.startAddr + ByteColumn(m, x) + LineStart(m, line)
  }

  /** The memory cell behind plane p of pixel (x, y). A chained pixel lives in one plane. */
  function PixelCell(m: Mode, x: nat, y: nat, p: nat): nat {
    Offset(m, x, y) + (if m.layout.Chained? then x / 2 % 4 else p) * PLANE_SIZE
  }

  /** The memory cell behind plane p of the guest offset o. */
  function GuestCell(m: Mode, o: nat, p: nat): nat {
    if m.layout.Chained? then o - o % 4 + o % 4 * PLANE_SIZE else o + p * PLANE_SIZE
  }

  type Bits = (bool, bool, bool, bool)

  /** The attribute of planes 0 to 2. */
  function LowAttribute(m: Mode, bits: Bits): (a: nat)
    ensures a < 8
  {
    (if bits.0 && m.colorPlaneEnable[0] then 1 else 0)
    + (if bits.1 && m.colorPlaneEnable[1] then 2 else 0)
    + (if bits.2 && m.colorPlaneEnable[2] then 4 else 0)
  }

  /** The colour register a palette entry selects. */
  function Dac(m: Mode, entry: Byte): Byte {
    var low4 := [true, true, true, true, false, false, false, false];
    var low6 := [true, true, true, true, true, true, false, false];
    var bits23 := [false, false, true, true, false, false, false, false];
    var dac := if m.internalPaletteSize
               then Or(And(entry, low4), ShiftLeft(m.colorSelect, 4))
               else Or(And(entry, low6), ShiftLeft(And(m.colorSelect, bits23), 4));
    And(dac, m.pelMask)
  }

  function Colour(m: Mode, bits: Bits, visible: bool): Byte
    requires |m.palette| == 16
  {
    var bit3 := bits.3 && m.colorPlaneEnable[3];
    var lit3 := if !m.blinkIntensity then bit3 else if visible then true else !bit3;
    Dac(m, m.palette[LowAttribute(m, bits) + if lit3 then 8 else 0])
  }

  /** The colour changes with the blink phase: plane 3 is set and enabled, and the palette gives the attribute
      with and without it different colours. */
  predicate Blinks(m: Mode, bits: Bits)
    requires |m.palette| == 16
  {
    && bits.3 && m.colorPlaneEnable[3]
    && Dac(m, m.palette[LowAttribute(m, bits) + 8]) != Dac(m, m.palette[LowAttribute(m, bits)])
  }

  lemma BlinksIff(m: Mode, bits: Bits)
    requires |m.palette| == 16 && m.blinkIntensity
    ensures Colour(m, bits, true) != Colour(m, bits, false) <==> Blinks(m, bits)
  {
    hide Dac, LowAttribute;
  }

  /** What a full redraw puts at (x, y). `visible` is the blink phase. */
  function Pixel(m: Mode, memory: seq<Byte>, visible: bool, x: nat, y: nat): Byte
    requires Valid(m) && Rendered(m, x, y) && |memory| == MEMORY_SIZE
  {
    assert Offset(m, x, y) < PLANE_SIZE;
    if m.layout.Chained? then memory[PixelCell(m, x, y, 0)]
    else
      var bit := 7 - (if m.dotClockDiv2 then x / 2 else x) % 8;
      Colour(m, (memory[PixelCell(m, x, y, 0)][bit], memory[PixelCell(m, x, y, 1)][bit],
                 memory[PixelCell(m, x, y, 2)][bit], memory[PixelCell(m, x, y, 3)][bit]), visible)
  }

  /** The bits of the planes behind a pixel. */
  function PixelBits(m: Mode, memory: seq<Byte>, x: nat, y: nat): Bits
    requires |memory| == MEMORY_SIZE && Offset(m, x, y) < PLANE_SIZE && m.layout.Planar?
  {
    var bit := 7 - (if m.dotClockDiv2 then x / 2 else x) % 8;
    (memory[PixelCell(m, x, y, 0)][bit], memory[PixelCell(m, x, y, 1)][bit],
     memory[PixelCell(m, x, y, 2)][bit], memory[PixelCell(m, x, y, 3)][bit])
  }

  lemma PixelIsColour(m: Mode, memory: seq<Byte>, visible: bool, x: nat, y: nat)
    requires Valid(m) && m.layout.Planar? && Rendered(m, x, y) && |memory| == MEMORY_SIZE
    requires Offset(m, x, y) < PLANE_SIZE
    ensures Pixel(m, memory, visible, x, y) == Colour(m, PixelBits(m, memory, x, y), visible)
  {
    hide Valid, Dac, LowAttribute, Offset;
  }

  lemma OffsetInPlane(m: Mode, x: nat, y: nat)
    requires Valid(m) && Rendered(m, x, y)
    ensures Offset(m, x, y) < PLANE_SIZE
  {
    hide Offset, Rendered;
  }

  lemma PixelIsByte(m: Mode, memory: seq<Byte>, visible: bool, x: nat, y: nat)
    requires Valid(m) && m.layout.Chained? && Rendered(m, x, y) && |memory| == MEMORY_SIZE
    requires Offset(m, x, y) < PLANE_SIZE
    ensures Pixel(m, memory, visible, x, y) == memory[PixelCell(m, x, y, 0)]
  {
    hide Valid, Offset;
  }

  // ---------- guest side ----------

  function LinesPerTile(m: Mode): nat {
    if m.doubleScan then Y_TILESIZE / 2 else Y_TILESIZE
  }

  function LineIndex(m: Mode, d: nat): nat
    requires m.lineOffset > 0
  {
    d / m.lineOffset
  }

  function LineColumn(m: Mode, d: nat): nat
    requires m.lineOffset > 0
  {
    d % m.lineOffset
  }

  function PlanarColumn(m: Mode, d: nat): nat
    requires m.lineOffset > 0
  {
    LineColumn(m, d) / (if m.dotClockDiv2 then X_TILESIZE / 16 else X_TILESIZE / 8)
  }

  /** The tile the chained write marks; the subtraction wraps as a DWORD. */
  function ChainedMark(m: Mode, o: nat): (nat, nat)
    requires m.lineOffset > 0
  {
    var d := (o - m.startAddr) % 0x1_0000_0000;
    (LineColumn(m, d) / (X_TILESIZE / 2), LineIndex(m, d) / LinesPerTile(m))
  }

  /** The tile in the part of the screen below the line compare. */
  function SplitMark(m: Mode, o: nat): (nat, nat)
    requires m.lineOffset > 0
  {
    (PlanarColumn(m, o),
     (LineIndex(m, o) * (if m.doubleScan then 2 else 1) + m.lineCompare + 1) / Y_TILESIZE)
  }

  /** The tile in the part of the screen that starts at the start address. */
  function ScrolledMark(m: Mode, o: nat): (nat, nat)
    requires m.lineOffset > 0 && o >= m.startAddr
  {
    (PlanarColumn(m, o - m.startAddr), LineIndex(m, o - m.startAddr) / LinesPerTile(m))
  }

  /** The tiles a guest write at offset o marks dirty. */
  function Marked(m: Mode, o: nat): set<(nat, nat)> {
    if m.lineOffset == 0 then {}
    else if m.layout.Chained? then {ChainedMark(m, o)}
    else
      (if m.lineCompare < m.verticalDisplayEnd then {SplitMark(m, o)} else {})
      + (if o >= m.startAddr then {ScrolledMark(m, o)} else {})
  }

  // ---------- agreement ----------

  predicate Reads(m: Mode, x: nat, y: nat, o: nat) {
    PixelCell(m, x, y, 0) == GuestCell(m, o, 0)
  }

  /** Every visible pixel that reads the byte at guest offset o lies in a tile that writing o marks. */
  ghost predicate MarksEveryReader(m: Mode) {
    forall x: nat, y: nat, o: nat | Visible(m, x, y) && o < PLANE_SIZE && Reads(m, x, y, o) ::
      TileOf(x, y) in Marked(m, o)
  }

  /** No visible pixel column runs past the end of its scan line. */
  predicate WidthFits(m: Mode) {
    match m.layout
    case Chained => m.width <= 2 * m.lineOffset
    case Planar => m.width <= (if m.dotClockDiv2 then 16 else 8) * m.lineOffset
  }

  /** With double scan on, an even line compare puts the split mark one screen line early, which
      loses the tiles whose top line is in the split part. */
  predicate SplitAligned(m: Mode) {
    || !m.doubleScan
    || m.lineCompare % 2 == 1
    || m.verticalDisplayEnd < (m.lineCompare + 25) / Y_TILESIZE * Y_TILESIZE
  }

  /** The condition on the mode registers under which the tile marking is complete. */
  predicate MarkingComplete(m: Mode) {
    match m.layout
    case Chained => m.startAddr % 4 != 0 || WidthFits(m)
    case Planar => WidthFits(m) && SplitAligned(m)
  }

  lemma VisibleIsRendered(m: Mode, x: nat, y: nat)
    requires Visible(m, x, y)
    ensures Rendered(m, x, y)
  {
  }

  lemma Locate(m: Mode, d: nat, line: nat, column: nat)
    requires column < m.lineOffset && d == LineStart(m, line) + column
    ensures LineIndex(m, d) == line && LineColumn(m, d) == column
  {
    DivMod(d, line, m.lineOffset, column);
  }

  /** Both halvings of the display side cancel against the halved tile sizes of the guest side. */
  lemma TileOfPixel(m: Mode, x: nat, y: nat)
    ensures x / 2 / (X_TILESIZE / 2) == x / X_TILESIZE
    ensures ScanLine(m, y) / LinesPerTile(m) == y / Y_TILESIZE
    ensures m.layout.Planar? ==>
              ByteColumn(m, x) / (if m.dotClockDiv2 then X_TILESIZE / 16 else X_TILESIZE / 8) == x / X_TILESIZE
  {
  }

  lemma LineAligned(m: Mode, line: nat)
    requires Valid(m) && m.layout.Chained?
    ensures LineStart(m, line) % 8 == 0
  {
    var e := m.lineOffset / 8;
    assert m.lineOffset == 8 * e;
    assert line * (8 * e) == 8 * (line * e);
  }

  // ----- the chained layout

  lemma SameCell(a: nat, p: nat, b: nat, q: nat)
    requires a < PLANE_SIZE && b < PLANE_SIZE
    ensures a + p * PLANE_SIZE == b + q * PLANE_SIZE <==> a == b && p == q
  {
  }

  lemma SameDword(start: nat, px: nat, o: nat)
    ensures start + (px - px % 4) == o - o % 4 && px % 4 == o % 4 <==> start % 4 == 0 && o == start + px
  {
  }

  lemma SameChainedCell(start: nat, line: nat, px: nat, o: nat)
    requires start + line + (px - px % 4) < PLANE_SIZE && o < PLANE_SIZE && line % 8 == 0
    ensures start + line + (px - px % 4) + px % 4 * PLANE_SIZE == o - o % 4 + o % 4 * PLANE_SIZE
            <==> start % 4 == 0 && o == start + line + px
  {
    LineMod4(start, line);
    SameDword(start + line, px, o);
    SameCell(start + line + (px - px % 4), px % 4, o - o % 4, o % 4);
  }

  lemma LineMod4(start: nat, line: nat)
    requires line % 8 == 0
    ensures (start + line) % 4 == start % 4
  {
    DivMod(start + line, start / 4 + 2 * (line / 8), 4, start % 4);
  }

  /** A chained pixel reads exactly the guest byte at its linear address. */
  lemma ChainedReads(m: Mode, x: nat, y: nat, o: nat)
    requires Valid(m) && m.layout.Chained? && Visible(m, x, y) && o < PLANE_SIZE
    ensures Reads(m, x, y, o)
            <==> m.startAddr % 4 == 0 && o == m.startAddr + LineStart(m, ScanLine(m, y)) + x / 2
  {
    VisibleIsRendered(m, x, y);
    assert Offset(m, x, y) < PLANE_SIZE;
    hide LineStart, Valid, ScanLine, Rendered, Visible;
    LineAligned(m, ScanLine(m, y));
    SameChainedCell(m.startAddr, LineStart(m, ScanLine(m, y)), x / 2, o);
  }

  lemma ChainedComplete(m: Mode, x: nat, y: nat, o: nat)
    requires Valid(m) && m.layout.Chained? && MarkingComplete(m)
    requires Visible(m, x, y) && o < PLANE_SIZE && Reads(m, x, y, o)
    ensures TileOf(x, y) in Marked(m, o)
  {
    ChainedReads(m, x, y, o);
    TileOfPixel(m, x, y);
    var (line, column) := (ScanLine(m, y), x / 2);
    assert column < m.lineOffset;
    hide LineStart, LineIndex, LineColumn, Valid, Reads, ScanLine, LinesPerTile, MarkingComplete, Visible, ChainedMark;
    ChainedMarkAt(m, o, line, column);
  }

  lemma ChainedMarkAt(m: Mode, o: nat, line: nat, column: nat)
    requires column < m.lineOffset && o < PLANE_SIZE && o == m.startAddr + LineStart(m, line) + column
    ensures ChainedMark(m, o) == (column / (X_TILESIZE / 2), line / LinesPerTile(m))
  {
    hide LineStart, LineIndex, LineColumn, LinesPerTile;
    Locate(m, o - m.startAddr, line, column);
    assert (o - m.startAddr) % 0x1_0000_0000 == o - m.startAddr;
  }

  /** A line too wide for its offset: the pixel just past the end shares a byte with the next line. */
  lemma ChainedIncomplete(m: Mode)
    requires Valid(m) && m.layout.Chained? && !MarkingComplete(m)
    ensures !MarksEveryReader(m)
  {
    ChainedPastEnd(m);
    ChainedPastEndUnmarked(m);
  }

  lemma ChainedPastEnd(m: Mode)
    requires Valid(m) && m.layout.Chained? && !MarkingComplete(m)
    ensures var (x, o) := (2 * m.lineOffset, m.startAddr + m.lineOffset);
            Visible(m, x, 0) && o < PLANE_SIZE && Reads(m, x, 0, o)
  {
    var x := 2 * m.lineOffset;
    assert m.lineOffset % 8 == 0 && Visible(m, x, 0);
    VisibleIsRendered(m, x, 0);
    assert Offset(m, x, 0) < PLANE_SIZE;
    hide Valid, Reads;
    assert LineStart(m, 0) == 0;
    assert Offset(m, x, 0) == m.startAddr + m.lineOffset;
    ChainedReads(m, x, 0, m.startAddr + m.lineOffset);
  }

  lemma ChainedPastEndUnmarked(m: Mode)
    requires m.layout.Chained? && m.lineOffset % 8 == 0 && m.startAddr + m.lineOffset < PLANE_SIZE
    ensures TileOf(2 * m.lineOffset, 0) !in Marked(m, m.startAddr + m.lineOffset)
  {
    if m.lineOffset > 0 {
      assert m.lineOffset == LineStart(m, 1);
      Locate(m, m.lineOffset, 1, 0);
      hide LineStart, LineIndex, LineColumn;
      assert ChainedMark(m, m.startAddr + m.lineOffset) == (0, 0);
    }
  }

  // ----- the planar layout

  lemma PlanarReads(m: Mode, x: nat, y: nat, o: nat)
    requires m.layout.Planar?
    ensures Reads(m, x, y, o) <==> o == Offset(m, x, y)
  {
  }

  lemma PlanarComplete(m: Mode, x: nat, y: nat, o: nat)
    requires m.layout.Planar? && MarkingComplete(m)
    requires Visible(m, x, y) && o < PLANE_SIZE && Reads(m, x, y, o)
    ensures TileOf(x, y) in Marked(m, o)
  {
    var (line, compare) := (ScanLine(m, y), ScanLineCompare(m));
    var column := ByteColumn(m, x);
    assert column < m.lineOffset;
    PlanarReads(m, x, y, o);
    TileOfPixel(m, x, y);
    if line > compare {
      SplitRow(m, y, line - compare - 1);
    }
    hide LineStart, LineIndex, LineColumn, ScanLine, ScanLineCompare, ByteColumn, LinesPerTile;
    hide MarkingComplete, Visible, Reads;
    if line > compare {
      Locate(m, o, line - compare - 1, column);
      assert SplitMark(m, o) == TileOf(x, y);
    } else {
      Locate(m, o - m.startAddr, line, column);
      assert ScrolledMark(m, o) == TileOf(x, y);
    }
  }

  /** The split mark's row is the pixel's, k lines below the line compare. */
  lemma SplitRow(m: Mode, y: nat, k: nat)
    requires SplitAligned(m) && y <= m.verticalDisplayEnd
    requires ScanLine(m, y) == ScanLineCompare(m) + 1 + k
    ensures m.lineCompare < m.verticalDisplayEnd
    ensures (k * (if m.doubleScan then 2 else 1) + m.lineCompare + 1) / Y_TILESIZE == y / Y_TILESIZE
  {
  }

  /** The planar pixel just past the end of the line offset, on the first line. */
  lemma PlanarPastEnd(m: Mode)
    requires Valid(m) && m.layout.Planar? && !WidthFits(m)
    ensures !MarksEveryReader(m)
  {
    var x := (if m.dotClockDiv2 then 16 else 8) * m.lineOffset;
    var o := m.startAddr + m.lineOffset;
    VisibleIsRendered(m, x, 0);
    assert LineStart(m, 0) == 0;
    assert Offset(m, x, 0) == o;
    PlanarReads(m, x, 0, o);
    PlanarPastEndUnmarked(m, o);
    assert Visible(m, x, 0) && Reads(m, x, 0, o) && TileOf(x, 0) !in Marked(m, o);
  }

  /** No mark reaches the column past the end. */
  lemma PlanarPastEndUnmarked(m: Mode, o: nat)
    requires m.layout.Planar? && m.lineOffset % 2 == 0 && o == m.startAddr + m.lineOffset
    ensures TileOf((if m.dotClockDiv2 then 16 else 8) * m.lineOffset, 0) !in Marked(m, o)
  {
    if m.lineOffset > 0 {
      assert m.lineOffset == LineStart(m, 1);
      Locate(m, m.lineOffset, 1, 0);
      assert LineColumn(m, o) < m.lineOffset;
      hide LineStart, LineIndex, LineColumn;
      assert PlanarColumn(m, o) < m.lineOffset / (if m.dotClockDiv2 then 1 else 2);
    }
  }

  /** The first tile top in the split part, and its scan line there. */
  lemma NextTileTop(compare: nat) returns (y: nat, k: nat)
    requires compare % 2 == 0
    ensures y == (compare + 25) / Y_TILESIZE * Y_TILESIZE && y % Y_TILESIZE == 0
    ensures y == 2 * k + compare + 2
  {
    var j := compare / 2;
    assert compare == 2 * j;
    var q := (2 * j + 25) / Y_TILESIZE;
    assert 2 * j + 25 == Y_TILESIZE * q + (2 * j + 25) % Y_TILESIZE;
    DivMod(Y_TILESIZE * q, q, Y_TILESIZE, 0);
    y, k := Y_TILESIZE * q, Y_TILESIZE / 2 * q - j - 1;
  }

  /** A tile whose top line is in the split part, under double scan and an even line compare. */
  lemma SplitMisaligned(m: Mode)
    requires Valid(m) && m.layout.Planar? && WidthFits(m) && !SplitAligned(m)
    ensures !MarksEveryReader(m)
  {
    var y, k := NextTileTop(m.lineCompare);
    var o := LineStart(m, k);
    VisibleIsRendered(m, 0, y);
    SplitTopReads(m, y, k);
    assert Offset(m, 0, y) < PLANE_SIZE;
    SplitMisalignedUnmarked(m, y, k, o);
    assert Visible(m, 0, y) && Reads(m, 0, y, o) && TileOf(0, y) !in Marked(m, o);
  }

  lemma SplitTopReads(m: Mode, y: nat, k: nat)
    requires m.layout.Planar? && m.doubleScan && m.lineCompare % 2 == 0 && y == 2 * k + m.lineCompare + 2
    ensures Offset(m, 0, y) == LineStart(m, k) && Reads(m, 0, y, LineStart(m, k))
  {
    hide LineStart;
    assert ScanLine(m, y) - ScanLineCompare(m) - 1 == k;
  }

  lemma SplitMisalignedUnmarked(m: Mode, y: nat, k: nat, o: nat)
    requires m.layout.Planar? && m.lineOffset > 0 && m.doubleScan && m.lineCompare % 2 == 0
    requires y % Y_TILESIZE == 0 && y == 2 * k + m.lineCompare + 2 && o == LineStart(m, k)
    ensures TileOf(0, y) !in Marked(m, o)
  {
    Locate(m, o, k, 0);
    assert SplitMark(m, o).1 == (y - 1) / Y_TILESIZE;
    if o >= m.startAddr {
      assert LineIndex(m, o - m.startAddr) <= k by {
        DivMonotone(o - m.startAddr, o, m.lineOffset);
      }
      hide LineIndex;
      assert ScrolledMark(m, o).1 < y / Y_TILESIZE;
    }
  }

  /** The refresh is complete exactly under the condition on the mode registers: a write marks every
      tile that shows the byte if and only if scan lines fit their offset and, in the planar layout,
      the split mark is aligned (a chained display whose start address is not a multiple of four
      shows no byte a chained write can reach). */
  lemma MarkingCompleteIff(m: Mode)
    requires Valid(m)
    ensures MarksEveryReader(m) <==> MarkingComplete(m)
  {
    if MarkingComplete(m) {
      forall x: nat, y: nat, o: nat | Visible(m, x, y) && o < PLANE_SIZE && Reads(m, x, y, o)
        ensures TileOf(x, y) in Marked(m, o)
      {
        if m.layout.Chained? {
          ChainedComplete(m, x, y, o);
        } else {
          PlanarComplete(m, x, y, o);
        }
      }
    } else if m.layout.Chained? {
      ChainedIncomplete(m);
    } else if !WidthFits(m) {
      PlanarPastEnd(m);
    } else {
      SplitMisaligned(m);
    }
  }
}
