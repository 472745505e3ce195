/**
 The refresh as a cache: guest writes, register writes that only steer writes, redraw requests and
 refreshes act on a state; the screen must always agree with a full redraw outside dirty tiles.
 */
module VgaRefresh {
  import opened Bytes
  import opened VgaAlu
  import opened VgaLayout

  const VGA_BASE := 0xA_0000
  const TILE_BYTES := X_TILESIZE * Y_TILESIZE

  type Tile = (nat, nat)

  /** The fields the handlers update. `screen` holds the pixels last handed to the GUI, per tile. */
  datatype Vga = Vga(
    memory: seq<Byte>, latch: seq<Byte>, graphics: GraphicsCtrl, mapMask: Byte,
    dirty: set<Tile>, memUpdated: bool, csCounter: nat, csVisible: bool,
    lastXres: nat, lastYres: nat, screen: map<Tile, seq<Byte>>)

  datatype Event =
    | Write(address: nat, value: Byte)
    | Read(address: nat)
    | SetGraphics(graphics: GraphicsCtrl, mapMask: Byte)
    | RedrawArea(x0: nat, y0: nat, width: nat, height: nat)
    | Refresh(skip: bool)

  predicate InArray(m: Mode, t: Tile) {
    t.0 < m.numXTiles && t.1 < m.numYTiles
  }

  predicate OnScreen(m: Mode, t: Tile) {
    t.0 < Columns(m) && t.1 < Rows(m)
  }

  ghost predicate WellFormed(m: Mode, s: Vga) {
    && Valid(m) && |s.memory| == MEMORY_SIZE && |s.latch| == 4 && s.graphics.Valid() && 0 < s.csCounter
    && forall t | t in s.dirty :: InArray(m, t)
  }

  ghost predicate ValidEvent(e: Event) {
    match e
    case SetGraphics(graphics, _) => graphics.Valid()
    case RedrawArea(x0, y0, width, height) => 0 < width && 0 < height
    case _ => true
  }

  // ---------- the steps ----------

  /** The four planes after a planar write; the map mask selects the planes written. */
  function StorePlanes(memory: seq<Byte>, o: nat, n: nat, mapMask: Byte, planes: seq<Byte>): (r: seq<Byte>)
    requires n <= 4 && |memory| == MEMORY_SIZE && o < PLANE_SIZE && |planes| == 4
    ensures |r| == MEMORY_SIZE
  {
    if n == 0 then memory
    else
      var before := StorePlanes(memory, o, n - 1, mapMask, planes);
      if mapMask[n - 1] then before[o + (n - 1) * PLANE_SIZE := planes[n - 1]] else before
  }

  /** The new value of each plane, from the latches and the CPU byte. */
  function NewPlanes(s: Vga, value: Byte): seq<Byte>
    requires |s.latch| == 4 && s.graphics.Valid()
  {
    [NewPlane(s.graphics, 0, value, s.latch[0]), NewPlane(s.graphics, 1, value, s.latch[1]),
     NewPlane(s.graphics, 2, value, s.latch[2]), NewPlane(s.graphics, 3, value, s.latch[3])]
  }

  predicate AnyPlane(mapMask: Byte) {
    mapMask[0] || mapMask[1] || mapMask[2] || mapMask[3]
  }

  function MarkedInArray(m: Mode, o: nat): set<Tile> {
    set t | t in Marked(m, o) && InArray(m, t)
  }

  function WriteStep(m: Mode, s: Vga, address: nat, value: Byte): (r: Vga)
    requires WellFormed(m, s)
  {
    if address < VGA_BASE || address >= VGA_BASE + PLANE_SIZE then s
    else
      var o := address - VGA_BASE;
      if m.layout.Chained? then
        var written := s.(memory := s.memory[GuestCell(m, o, 0) := value]);
        if m.lineOffset > 0 then written.(memUpdated := true, dirty := s.dirty + MarkedInArray(m, o)) else written
      else if AnyPlane(s.mapMask) then
        s.(memory := StorePlanes(s.memory, o, 4, s.mapMask, NewPlanes(s, value)),
           memUpdated := true, dirty := s.dirty + MarkedInArray(m, o))
      else s
  }

  /** A planar read loads the four latches; a chained one leaves them alone. */
  function ReadStep(m: Mode, s: Vga, address: nat): Vga
    requires WellFormed(m, s)
  {
    if address >= VGA_BASE + PLANE_SIZE || m.layout.Chained? then s
    else
      var o := address % PLANE_SIZE;
      s.(latch := [s.memory[GuestCell(m, o, 0)], s.memory[GuestCell(m, o, 1)],
                   s.memory[GuestCell(m, o, 2)], s.memory[GuestCell(m, o, 3)]])
  }

  function ReadResult(m: Mode, s: Vga, address: nat): Byte
    requires WellFormed(m, s)
  {
    var o := address % PLANE_SIZE;
    if address >= VGA_BASE + PLANE_SIZE then ONES
    else if m.layout.Chained? then s.memory[GuestCell(m, o, 0)]
    else ReadValue(s.graphics, ReadStep(m, s, address).latch)
  }

  /** The last tile of a redraw request along one axis. */
  function LastTile(from: nat, length: nat, resolution: nat, size: nat): nat
    requires 0 < length && 0 < size
  {
    if from < resolution then (from + length - 1) / size else (resolution - 1) % 0x1_0000_0000 / size
  }

  /** The tiles of the array from (x0, y0) up to but not including column x1 and row y1. */
  function Block(m: Mode, x0: nat, y0: nat, x1: nat, y1: nat): set<Tile> {
    set tx: nat, ty: nat | tx < m.numXTiles && ty < m.numYTiles && x0 <= tx < x1 && y0 <= ty < y1 :: (tx, ty)
  }

  function RedrawStep(m: Mode, s: Vga, x0: nat, y0: nat, width: nat, height: nat): Vga
    requires 0 < width && 0 < height
  {
    var (x1, y1) := (LastTile(x0, width, s.lastXres, X_TILESIZE), LastTile(y0, height, s.lastYres, Y_TILESIZE));
    s.(memUpdated := true, dirty := s.dirty + Block(m, x0 / X_TILESIZE, y0 / Y_TILESIZE, x1 + 1, y1 + 1))
  }

  /** How a refresh starts: whether it goes on, whether the blink phase flips, and the new counter and phase. */
  datatype Gate = Gate(proceeds: bool, toggle: bool, counter: nat, visible: bool)

  function RefreshGate(m: Mode, s: Vga): Gate
    requires 0 < s.csCounter
  {
    var counter := s.csCounter - 1;
    if !s.memUpdated && counter > 0 then Gate(false, false, counter, s.csVisible)
    else if counter > 0 then Gate(true, false, counter, s.csVisible)
    else if m.blinkIntensity then Gate(true, true, m.blinkCounter, !s.csVisible)
    else if !s.memUpdated then Gate(false, false, m.blinkCounter, s.csVisible)
    else Gate(true, false, m.blinkCounter, false)
  }

  function DrawnTiles(m: Mode, dirty: set<Tile>, all: bool): (r: set<Tile>)
    ensures forall t | t in r :: OnScreen(m, t)
  {
    set tx: nat, ty: nat | tx < Columns(m) && ty < Rows(m) && (all || (tx, ty) in dirty) :: (tx, ty)
  }

  /** The tiles a refresh redraws: the dirty ones, and in the planar layout all when the phase flips. */
  function Drawn(m: Mode, dirty: set<Tile>, toggle: bool): set<Tile> {
    DrawnTiles(m, dirty, m.layout.Planar? && toggle)
  }

  /** The tiles drawn once the rows above y and, in row y, the columns left of x are done. */
  function DrawnUpTo(m: Mode, dirty: set<Tile>, all: bool, x: nat, y: nat): (r: set<Tile>)
    ensures forall t | t in r :: OnScreen(m, t)
  {
    set t | t in DrawnTiles(m, dirty, all) && (t.1 < y || (t.1 == y && t.0 < x))
  }

  function RenderTile(m: Mode, memory: seq<Byte>, visible: bool, t: Tile): seq<Byte>
    requires Valid(m) && |memory| == MEMORY_SIZE && OnScreen(m, t)
  {
    seq(TILE_BYTES, i requires 0 <= i < TILE_BYTES =>
      Pixel(m, memory, visible, X_TILESIZE * t.0 + i % X_TILESIZE, Y_TILESIZE * t.1 + i / X_TILESIZE))
  }

  function Rendering(m: Mode, memory: seq<Byte>, visible: bool, tiles: set<Tile>): map<Tile, seq<Byte>>
    requires Valid(m) && |memory| == MEMORY_SIZE && forall t | t in tiles :: OnScreen(m, t)
  {
    map t | t in tiles :: RenderTile(m, memory, visible, t)
  }

  /** The state once the given tiles are on screen and clean. */
  function AfterDrawing(m: Mode, s: Vga, tiles: set<Tile>): Vga
    requires Valid(m) && |s.memory| == MEMORY_SIZE && forall t | t in tiles :: OnScreen(m, t)
  {
    s.(screen := s.screen + Rendering(m, s.memory, s.csVisible, tiles), dirty := s.dirty - tiles)
  }

  lemma NothingDrawn(m: Mode, s: Vga)
    requires Valid(m) && |s.memory| == MEMORY_SIZE
    ensures AfterDrawing(m, s, {}) == s
  {
  }

  function RefreshStep(m: Mode, s: Vga, skip: bool): Vga
    requires WellFormed(m, s)
  {
    var gate := RefreshGate(m, s);
    var ticked := s.(csCounter := gate.counter, csVisible := gate.visible);
    if !gate.proceeds then ticked
    else
      var resized := ticked.(lastXres := m.width, lastYres := m.verticalDisplayEnd + 1);
      if skip then resized
      else
        AfterDrawing(m, resized, Drawn(m, s.dirty, gate.toggle)).(memUpdated := false)
  }

  function Step(m: Mode, s: Vga, e: Event): Vga
    requires WellFormed(m, s) && ValidEvent(e)
  {
    match e
    case Write(address, value) => WriteStep(m, s, address, value)
    case Read(address) => ReadStep(m, s, address)
    case SetGraphics(graphics, mapMask) => s.(graphics := graphics, mapMask := mapMask)
    case RedrawArea(x0, y0, width, height) => RedrawStep(m, s, x0, y0, width, height)
    case Refresh(skip) => RefreshStep(m, s, skip)
  }

  lemma StepWellFormed(m: Mode, s: Vga, e: Event)
    requires WellFormed(m, s) && ValidEvent(e)
    ensures WellFormed(m, Step(m, s, e))
  {
  }

  ghost predicate ValidRun(es: seq<Event>) {
    forall e | e in es :: ValidEvent(e)
  }

  function Run(m: Mode, s: Vga, es: seq<Event>): (r: Vga)
    requires WellFormed(m, s) && ValidRun(es)
    ensures WellFormed(m, r)
    decreases |es|
  {
    if es == [] then s
    else
      StepWellFormed(m, s, es[0]);
      Run(m, Step(m, s, es[0]), es[1..])
  }

  // ---------- coherence ----------

  /** What the GUI shows at a pixel, if its tile was ever drawn. */
  ghost predicate Shows(s: Vga, x: nat, y: nat, colour: Byte) {
    var t := TileOf(x, y);
    t in s.screen && |s.screen[t]| == TILE_BYTES && s.screen[t][y % Y_TILESIZE * X_TILESIZE + x % X_TILESIZE] == colour
  }

  ghost predicate PixelCurrent(m: Mode, s: Vga, x: nat, y: nat)
    requires Valid(m) && |s.memory| == MEMORY_SIZE && Visible(m, x, y)
  {
    VisibleIsRendered(m, x, y);
    Shows(s, x, y, Pixel(m, s.memory, s.csVisible, x, y))
  }

  /** The screen is what a full redraw of memory would give. */
  ghost predicate ScreenCurrent(m: Mode, s: Vga)
    requires Valid(m) && |s.memory| == MEMORY_SIZE
  {
    forall x: nat, y: nat | Visible(m, x, y) :: PixelCurrent(m, s, x, y)
  }

  /** The cache invariant: clean tiles are current, and a dirty tile on screen keeps the next refresh going. */
  ghost predicate Coherent(m: Mode, s: Vga) {
    && WellFormed(m, s)
    && (forall x: nat, y: nat | Visible(m, x, y) && TileOf(x, y) !in s.dirty :: PixelCurrent(m, s, x, y))
    && (forall t | t in s.dirty && OnScreen(m, t) :: s.memUpdated)
  }

  /** A pixel's value depends on its four cells only. */
  lemma PixelFrame(m: Mode, before: seq<Byte>, after: seq<Byte>, visible: bool, x: nat, y: nat)
    requires Valid(m) && Rendered(m, x, y) && |before| == |after| == MEMORY_SIZE
    requires forall p | 0 <= p < 4 && PixelCell(m, x, y, p) < MEMORY_SIZE ::
               before[PixelCell(m, x, y, p)] == after[PixelCell(m, x, y, p)]
    ensures Pixel(m, before, visible, x, y) == Pixel(m, after, visible, x, y)
  {
    assert Offset(m, x, y) < PLANE_SIZE;
  }

  lemma StorePlanesFrame(memory: seq<Byte>, o: nat, n: nat, mapMask: Byte, planes: seq<Byte>, i: nat)
    requires n <= 4 && |memory| == MEMORY_SIZE && o < PLANE_SIZE && |planes| == 4
    requires i < MEMORY_SIZE && i % PLANE_SIZE != o
    ensures StorePlanes(memory, o, n, mapMask, planes)[i] == memory[i]
  {
  }

  lemma OtherCell(m: Mode, s: Vga, o: nat, value: Byte, x: nat, y: nat, p: nat)
    requires WellFormed(m, s) && o < PLANE_SIZE && !Reads(m, x, y, o) && Offset(m, x, y) < PLANE_SIZE && p < 4
    ensures PixelCell(m, x, y, p) < MEMORY_SIZE
    ensures WriteStep(m, s, VGA_BASE + o, value).memory[PixelCell(m, x, y, p)] == s.memory[PixelCell(m, x, y, p)]
  {
    hide VgaLayout.Valid, Offset;
    if m.layout.Planar? {
      assert PixelCell(m, x, y, p) % PLANE_SIZE == Offset(m, x, y) != o;
      StorePlanesFrame(s.memory, o, 4, s.mapMask, NewPlanes(s, value), PixelCell(m, x, y, p));
      hide StorePlanes, NewPlanes;
    }
  }

  /** A pixel keeps its colour through a write unless it reads the byte written. */
  lemma WriteFrame(m: Mode, s: Vga, o: nat, value: Byte, x: nat, y: nat, visible: bool)
    requires WellFormed(m, s) && o < PLANE_SIZE && Visible(m, x, y) && !Reads(m, x, y, o)
    ensures Rendered(m, x, y)
    ensures Pixel(m, WriteStep(m, s, VGA_BASE + o, value).memory, visible, x, y) == Pixel(m, s.memory, visible, x, y)
  {
    VisibleIsRendered(m, x, y);
    assert Offset(m, x, y) < PLANE_SIZE;
    hide VgaLayout.Valid, Pixel, Visible, Rendered;
    var after := WriteStep(m, s, VGA_BASE + o, value).memory;
    forall p | 0 <= p < 4 && PixelCell(m, x, y, p) < MEMORY_SIZE
      ensures s.memory[PixelCell(m, x, y, p)] == after[PixelCell(m, x, y, p)]
    {
      OtherCell(m, s, o, value, x, y, p);
    }
    hide WriteStep;
    PixelFrame(m, s.memory, after, visible, x, y);
  }

  lemma OnScreenInArray(m: Mode, x: nat, y: nat)
    requires Valid(m) && Visible(m, x, y)
    ensures InArray(m, TileOf(x, y)) && OnScreen(m, TileOf(x, y))
  {
  }

  lemma WrittenPixel(m: Mode, s: Vga, o: nat, value: Byte, x: nat, y: nat)
    requires Coherent(m, s) && MarksEveryReader(m) && o < PLANE_SIZE && Visible(m, x, y)
    requires TileOf(x, y) !in WriteStep(m, s, VGA_BASE + o, value).dirty
    ensures PixelCurrent(m, WriteStep(m, s, VGA_BASE + o, value), x, y)
  {
    OnScreenInArray(m, x, y);
    assert PixelCurrent(m, s, x, y);
    hide Valid, Pixel, Columns, Rows;
    if Reads(m, x, y, o) {
      assert TileOf(x, y) in Marked(m, o);
    } else {
      WriteFrame(m, s, o, value, x, y, s.csVisible);
    }
  }

  lemma WriteArms(m: Mode, s: Vga, address: nat, value: Byte)
    requires Coherent(m, s)
    ensures var r := WriteStep(m, s, address, value);
            && WellFormed(m, r)
            && (forall t | t in r.dirty && OnScreen(m, t) :: r.memUpdated)
  {
    StepWellFormed(m, s, Write(address, value));
  }

  lemma WriteKeepsCoherent(m: Mode, s: Vga, address: nat, value: Byte)
    requires Coherent(m, s) && MarkingComplete(m)
    ensures Coherent(m, WriteStep(m, s, address, value))
  {
    if VGA_BASE <= address < VGA_BASE + PLANE_SIZE {
      VideoWriteKeepsCoherent(m, s, address - VGA_BASE, value);
    } else {
      assert WriteStep(m, s, address, value) == s;
    }
  }

  lemma VideoWriteKeepsCoherent(m: Mode, s: Vga, o: nat, value: Byte)
    requires Coherent(m, s) && MarkingComplete(m) && o < PLANE_SIZE
    ensures Coherent(m, WriteStep(m, s, VGA_BASE + o, value))
  {
    WriteArms(m, s, VGA_BASE + o, value);
    MarkingCompleteIff(m);
    var r := WriteStep(m, s, VGA_BASE + o, value);
    hide WriteStep, VgaLayout.Valid, MarksEveryReader, MarkingComplete, PixelCurrent, Columns, Rows;
    forall x: nat, y: nat | Visible(m, x, y) && TileOf(x, y) !in r.dirty
      ensures PixelCurrent(m, r, x, y)
    {
      WrittenPixel(m, s, o, value, x, y);
    }
  }

  /** A redraw puts each pixel of the tile where `Shows` looks for it. */
  lemma RenderedPixel(m: Mode, memory: seq<Byte>, visible: bool, x: nat, y: nat)
    requires Valid(m) && |memory| == MEMORY_SIZE && Visible(m, x, y)
    ensures OnScreen(m, TileOf(x, y)) && Rendered(m, x, y)
    ensures RenderTile(m, memory, visible, TileOf(x, y))[y % Y_TILESIZE * X_TILESIZE + x % X_TILESIZE]
            == Pixel(m, memory, visible, x, y)
  {
    VisibleIsRendered(m, x, y);
    OnScreenInArray(m, x, y);
    hide VgaLayout.Valid, Pixel, RenderTile, Visible;
    PlaceInTile(x, y);
    RenderedAt(m, memory, visible, TileOf(x, y), y % Y_TILESIZE * X_TILESIZE + x % X_TILESIZE, x, y);
  }

  lemma RenderedAt(m: Mode, memory: seq<Byte>, visible: bool, t: Tile, i: nat, x: nat, y: nat)
    requires Valid(m) && |memory| == MEMORY_SIZE && OnScreen(m, t) && Rendered(m, x, y) && i < TILE_BYTES
    requires x == X_TILESIZE * t.0 + i % X_TILESIZE && y == Y_TILESIZE * t.1 + i / X_TILESIZE
    ensures RenderTile(m, memory, visible, t)[i] == Pixel(m, memory, visible, x, y)
  {
    hide VgaLayout.Valid, Pixel, Rendered, OnScreen;
  }

  lemma PlaceInTile(x: nat, y: nat)
    ensures var i := y % Y_TILESIZE * X_TILESIZE + x % X_TILESIZE;
            && i < TILE_BYTES && i % X_TILESIZE == x % X_TILESIZE && i / X_TILESIZE == y % Y_TILESIZE
    ensures X_TILESIZE * (x / X_TILESIZE) + x % X_TILESIZE == x
    ensures Y_TILESIZE * (y / Y_TILESIZE) + y % Y_TILESIZE == y
  {
  }

  /** The blink phase only matters to planar modes with blinking on. */
  lemma PhaseIrrelevant(m: Mode, memory: seq<Byte>, x: nat, y: nat, v1: bool, v2: bool)
    requires Valid(m) && |memory| == MEMORY_SIZE && Rendered(m, x, y)
    requires m.layout.Chained? || !m.blinkIntensity
    ensures Pixel(m, memory, v1, x, y) == Pixel(m, memory, v2, x, y)
  {
  }

  /** A refresh that flips the blink phase of a planar mode and is then suppressed. */
  predicate SuppressedFlip(m: Mode, s: Vga, e: Event)
    requires 0 < s.csCounter
  {
    e.Refresh? && e.skip && m.layout.Planar? && RefreshGate(m, s).toggle
  }

  /** A refresh keeps the cache coherent, unless it flips the blink phase and is suppressed. */
  lemma RefreshKeepsCoherent(m: Mode, s: Vga, skip: bool)
    requires Coherent(m, s) && !SuppressedFlip(m, s, Refresh(skip))
    ensures Coherent(m, RefreshStep(m, s, skip))
  {
    var r := RefreshStep(m, s, skip);
    StepWellFormed(m, s, Refresh(skip));
    forall x: nat, y: nat | Visible(m, x, y) && TileOf(x, y) !in r.dirty
      ensures PixelCurrent(m, r, x, y)
    {
      RefreshedPixel(m, s, skip, x, y);
    }
  }

  lemma RefreshedPixel(m: Mode, s: Vga, skip: bool, x: nat, y: nat)
    requires Coherent(m, s) && !SuppressedFlip(m, s, Refresh(skip))
    requires Visible(m, x, y) && TileOf(x, y) !in RefreshStep(m, s, skip).dirty
    ensures PixelCurrent(m, RefreshStep(m, s, skip), x, y)
  {
    var gate := RefreshGate(m, s);
    OnScreenInArray(m, x, y);
    if gate.proceeds && !skip && TileOf(x, y) in Drawn(m, s.dirty, gate.toggle) {
      DrawnPixel(m, s, x, y);
    } else {
      assert TileOf(x, y) !in s.dirty;
      assert PixelCurrent(m, s, x, y);
      UndrawnPixel(m, s, skip, x, y);
    }
  }

  /** A pixel of a tile the refresh draws. */
  lemma DrawnPixel(m: Mode, s: Vga, x: nat, y: nat)
    requires WellFormed(m, s) && Visible(m, x, y)
    requires var gate := RefreshGate(m, s); gate.proceeds && TileOf(x, y) in Drawn(m, s.dirty, gate.toggle)
    ensures PixelCurrent(m, RefreshStep(m, s, false), x, y)
  {
    var gate := RefreshGate(m, s);
    var r := RefreshStep(m, s, false);
    RenderedPixel(m, s.memory, gate.visible, x, y);
    assert r.screen[TileOf(x, y)] == RenderTile(m, s.memory, gate.visible, TileOf(x, y));
    hide VgaLayout.Valid, Pixel, RenderTile, Visible, Rendered, Drawn;
  }

  /** The flip draws every tile on screen, so a pixel outside the drawn tiles does not depend on the phase. */
  lemma UndrawnPhase(m: Mode, s: Vga, skip: bool, x: nat, y: nat)
    requires WellFormed(m, s) && Visible(m, x, y) && Rendered(m, x, y)
    requires !SuppressedFlip(m, s, Refresh(skip)) && OnScreen(m, TileOf(x, y))
    requires var gate := RefreshGate(m, s); gate.proceeds && !skip ==> TileOf(x, y) !in Drawn(m, s.dirty, gate.toggle)
    ensures Pixel(m, s.memory, RefreshGate(m, s).visible, x, y) == Pixel(m, s.memory, s.csVisible, x, y)
  {
    var gate := RefreshGate(m, s);
    if gate.visible != s.csVisible {
      assert m.layout.Planar? && gate.toggle ==> TileOf(x, y) in Drawn(m, s.dirty, true);
      PhaseIrrelevant(m, s.memory, x, y, gate.visible, s.csVisible);
    }
    hide VgaLayout.Valid, Pixel, Visible, Rendered, Drawn, TileOf;
  }

  /** The refresh leaves the tiles it does not draw as they are. */
  lemma UndrawnTile(m: Mode, s: Vga, skip: bool, t: Tile)
    requires WellFormed(m, s)
    requires var gate := RefreshGate(m, s); gate.proceeds && !skip ==> t !in Drawn(m, s.dirty, gate.toggle)
    ensures var r := RefreshStep(m, s, skip);
            && r.memory == s.memory && r.csVisible == RefreshGate(m, s).visible
            && (t in r.screen <==> t in s.screen) && (t in s.screen ==> r.screen[t] == s.screen[t])
  {
    hide VgaLayout.Valid, Drawn, RenderTile, RefreshGate;
  }

  /** A current pixel of a tile it does not draw. */
  lemma UndrawnPixel(m: Mode, s: Vga, skip: bool, x: nat, y: nat)
    requires WellFormed(m, s) && Visible(m, x, y) && PixelCurrent(m, s, x, y)
    requires !SuppressedFlip(m, s, Refresh(skip)) && OnScreen(m, TileOf(x, y))
    requires var gate := RefreshGate(m, s); gate.proceeds && !skip ==> TileOf(x, y) !in Drawn(m, s.dirty, gate.toggle)
    ensures PixelCurrent(m, RefreshStep(m, s, skip), x, y)
  {
    VisibleIsRendered(m, x, y);
    UndrawnPhase(m, s, skip, x, y);
    UndrawnTile(m, s, skip, TileOf(x, y));
    hide VgaLayout.Valid, Pixel, RefreshStep, RefreshGate, Visible, Rendered, Drawn, TileOf;
  }

  lemma OtherStepsKeepCoherent(m: Mode, s: Vga, e: Event)
    requires Coherent(m, s) && ValidEvent(e) && !e.Write? && !e.Refresh?
    ensures Coherent(m, Step(m, s, e))
  {
    var r := Step(m, s, e);
    StepWellFormed(m, s, e);
    forall x: nat, y: nat | Visible(m, x, y) && TileOf(x, y) !in r.dirty
      ensures PixelCurrent(m, r, x, y)
    {
      assert PixelCurrent(m, s, x, y);
    }
  }

  /** No clean visible pixel of a planar mode blinks. */
  ghost predicate PhaseBlind(m: Mode, s: Vga)
    requires Valid(m) && |s.memory| == MEMORY_SIZE
  {
    m.layout.Planar? ==>
      forall x: nat, y: nat | Visible(m, x, y) && TileOf(x, y) !in s.dirty ::
        (VisibleIsRendered(m, x, y); OffsetInPlane(m, x, y); !Blinks(m, PixelBits(m, s.memory, x, y)))
  }

  lemma PhaseSeen(m: Mode, s: Vga, x: nat, y: nat)
    requires Valid(m) && |s.memory| == MEMORY_SIZE && m.layout.Planar? && m.blinkIntensity && Rendered(m, x, y)
    ensures Offset(m, x, y) < PLANE_SIZE
    ensures Pixel(m, s.memory, true, x, y) == Pixel(m, s.memory, false, x, y)
            <==> !Blinks(m, PixelBits(m, s.memory, x, y))
  {
    OffsetInPlane(m, x, y);
    PixelIsColour(m, s.memory, true, x, y);
    PixelIsColour(m, s.memory, false, x, y);
    BlinksIff(m, PixelBits(m, s.memory, x, y));
  }

  /** A suppressed flip keeps the cache coherent exactly when no clean pixel blinks. */
  lemma SuppressedFlipIff(m: Mode, s: Vga)
    requires Coherent(m, s) && SuppressedFlip(m, s, Refresh(true))
    ensures Coherent(m, RefreshStep(m, s, true)) <==> PhaseBlind(m, s)
  {
    var r := RefreshStep(m, s, true);
    StepWellFormed(m, s, Refresh(true));
    hide Valid, Pixel, Blinks, PixelBits, Offset;
    forall x: nat, y: nat | Visible(m, x, y) && TileOf(x, y) !in s.dirty
      ensures Rendered(m, x, y) && Offset(m, x, y) < PLANE_SIZE
      ensures PixelCurrent(m, r, x, y) <==> !Blinks(m, PixelBits(m, s.memory, x, y))
    {
      VisibleIsRendered(m, x, y);
      PhaseSeen(m, s, x, y);
      assert PixelCurrent(m, s, x, y);
    }
  }

  /** A step that makes clean pixels stale: a suppressed flip of the phase of blinking ones. */
  ghost predicate GoesStale(m: Mode, s: Vga, e: Event)
    requires WellFormed(m, s)
  {
    SuppressedFlip(m, s, e) && !PhaseBlind(m, s)
  }

  /** A step keeps clean tiles current if and only if it is not of that kind. */
  lemma StepCoherentIff(m: Mode, s: Vga, e: Event)
    requires Coherent(m, s) && MarkingComplete(m) && ValidEvent(e)
    ensures Coherent(m, Step(m, s, e)) <==> !GoesStale(m, s, e)
  {
    assert 0 < s.csCounter;
    hide Coherent, MarkingComplete, PhaseBlind, RefreshStep, WriteStep;
    match e {
      case Write(address, value) => WriteKeepsCoherent(m, s, address, value);
      case Refresh(skip) =>
        if SuppressedFlip(m, s, e) {
          SuppressedFlipIff(m, s);
        } else {
          RefreshKeepsCoherent(m, s, skip);
        }
      case _ => OtherStepsKeepCoherent(m, s, e);
    }
  }

  ghost predicate CoherentThroughout(m: Mode, s: Vga, es: seq<Event>)
    requires WellFormed(m, s) && ValidRun(es)
    decreases |es|
  {
    && Coherent(m, s)
    && (es == [] || (StepWellFormed(m, s, es[0]); CoherentThroughout(m, Step(m, s, es[0]), es[1..])))
  }

  ghost predicate NeverStale(m: Mode, s: Vga, es: seq<Event>)
    requires WellFormed(m, s) && ValidRun(es)
    decreases |es|
  {
    || es == []
    || (!GoesStale(m, s, es[0]) && (StepWellFormed(m, s, es[0]); NeverStale(m, Step(m, s, es[0]), es[1..])))
  }

  /** Over any run of guest writes, reads, steering-register writes, redraw requests and refreshes, clean tiles are
      current at every step if and only if no step is a suppressed flip of a blinking screen. */
  lemma {:induction false} RunCoherentIff(m: Mode, s: Vga, es: seq<Event>)
    requires Coherent(m, s) && MarkingComplete(m) && ValidRun(es)
    ensures CoherentThroughout(m, s, es) <==> NeverStale(m, s, es)
    decreases |es|
  {
    if es != [] {
      StepWellFormed(m, s, es[0]);
      StepCoherentIff(m, s, es[0]);
      hide Step, MarkingComplete, GoesStale;
      if !GoesStale(m, s, es[0]) {
        RunCoherentIff(m, Step(m, s, es[0]), es[1..]);
      }
    }
  }

  /** So every such run ends coherent. */
  lemma {:induction false} RunKeepsCoherent(m: Mode, s: Vga, es: seq<Event>)
    requires Coherent(m, s) && MarkingComplete(m) && ValidRun(es) && NeverStale(m, s, es)
    ensures Coherent(m, Run(m, s, es))
    decreases |es|
  {
    if es != [] {
      StepWellFormed(m, s, es[0]);
      StepCoherentIff(m, s, es[0]);
      hide Step, MarkingComplete, Coherent;
      RunKeepsCoherent(m, Step(m, s, es[0]), es[1..]);
    }
  }

  /** A refresh that is not suppressed leaves no dirty tile on screen. */
  lemma RefreshCleans(m: Mode, s: Vga)
    requires Coherent(m, s)
    ensures forall t | t in RefreshStep(m, s, false).dirty :: !OnScreen(m, t)
  {
    var gate := RefreshGate(m, s);
    if gate.proceeds {
      forall t | t in s.dirty && OnScreen(m, t) ensures t in Drawn(m, s.dirty, gate.toggle) {
        assert t == (t.0, t.1);
      }
    }
  }

  /** The incremental refresh equals the full redraw: whatever the guest did since the screen was
      last coherent, after the next unsuppressed refresh every visible pixel is what rendering all of
      memory would give. */
  lemma RefreshEqualsFullRedraw(m: Mode, s: Vga, es: seq<Event>)
    requires Coherent(m, s) && MarkingComplete(m) && ValidRun(es) && NeverStale(m, s, es)
    ensures ScreenCurrent(m, RefreshStep(m, Run(m, s, es), false))
  {
    RunKeepsCoherent(m, s, es);
    var before := Run(m, s, es);
    RefreshKeepsCoherent(m, before, false);
    RefreshCleans(m, before);
    var after := RefreshStep(m, before, false);
    forall x: nat, y: nat | Visible(m, x, y) ensures PixelCurrent(m, after, x, y) {
      OnScreenInArray(m, x, y);
      assert TileOf(x, y) !in after.dirty;
    }
  }

  /** A redraw request for the whole screen makes any state coherent, as a mode change relies on. */
  lemma FullRedrawRequest(m: Mode, s: Vga)
    requires WellFormed(m, s) && s.lastXres == m.width && s.lastYres == m.verticalDisplayEnd + 1
    ensures Coherent(m, RedrawStep(m, s, 0, 0, s.lastXres, s.lastYres))
  {
    var r := RedrawStep(m, s, 0, 0, s.lastXres, s.lastYres);
    StepWellFormed(m, s, RedrawArea(0, 0, s.lastXres, s.lastYres));
    forall x: nat, y: nat | Visible(m, x, y) ensures TileOf(x, y) in r.dirty {
      OnScreenInArray(m, x, y);
      assert x / X_TILESIZE <= (m.width - 1) / X_TILESIZE;
      assert y / Y_TILESIZE <= m.verticalDisplayEnd / Y_TILESIZE;
    }
  }

  /** Reading a byte latches its four planes; a mode-1 write elsewhere then copies them, and nothing else. */
  lemma ReadThenMode1Copies(m: Mode, s: Vga, from: nat, to: nat, value: Byte, i: nat)
    requires WellFormed(m, s) && m.layout.Planar? && from < PLANE_SIZE && to < PLANE_SIZE
    requires s.graphics.writeMode == 1 && s.mapMask[0] && s.mapMask[1] && s.mapMask[2] && s.mapMask[3]
    requires i < MEMORY_SIZE
    ensures var r := WriteStep(m, ReadStep(m, s, VGA_BASE + from), VGA_BASE + to, value);
            r.memory[i] == if i % PLANE_SIZE == to then s.memory[i - to + from] else s.memory[i]
  {
    var latched := ReadStep(m, s, VGA_BASE + from);
    assert (VGA_BASE + from) % PLANE_SIZE == from;
    if i % PLANE_SIZE == to {
      StoreCopies(s.memory, to, 4, latched.mapMask, NewPlanes(latched, value), i / PLANE_SIZE);
    } else {
      StorePlanesFrame(s.memory, to, 4, latched.mapMask, NewPlanes(latched, value), i);
    }
  }

  lemma StoreCopies(memory: seq<Byte>, o: nat, n: nat, mapMask: Byte, planes: seq<Byte>, p: nat)
    requires p < n <= 4 && |memory| == MEMORY_SIZE && o < PLANE_SIZE && |planes| == 4 && mapMask[p]
    ensures StorePlanes(memory, o, n, mapMask, planes)[o + p * PLANE_SIZE] == planes[p]
  {
  }

  /** One tile, one row, all rows of the refresh loop. */
  lemma DrawnPrefix(m: Mode, dirty: set<Tile>, all: bool, x: nat, y: nat)
    ensures DrawnUpTo(m, dirty, all, 0, 0) == {} && (x, y) !in DrawnUpTo(m, dirty, all, x, y)
    ensures x < Columns(m) && y < Rows(m) ==>
              DrawnUpTo(m, dirty, all, x + 1, y)
              == DrawnUpTo(m, dirty, all, x, y) + (if all || (x, y) in dirty then {(x, y)} else {})
    ensures DrawnUpTo(m, dirty, all, Columns(m), y) == DrawnUpTo(m, dirty, all, 0, y + 1)
    ensures DrawnUpTo(m, dirty, all, 0, Rows(m)) == DrawnTiles(m, dirty, all)
  {
    hide Columns, Rows;
  }

  lemma AfterDrawingGrows(m: Mode, s: Vga, tiles: set<Tile>, t: Tile)
    requires Valid(m) && |s.memory| == MEMORY_SIZE && OnScreen(m, t) && forall u | u in tiles :: OnScreen(m, u)
    ensures AfterDrawing(m, s, tiles + {}) == AfterDrawing(m, s, tiles)
    ensures var a := AfterDrawing(m, s, tiles);
            AfterDrawing(m, s, tiles + {t})
            == a.(dirty := a.dirty - {t}, screen := a.screen[t := RenderTile(m, s.memory, s.csVisible, t)])
  {
    hide Valid, Pixel, RenderTile, Columns, Rows;
    assert tiles + {} == tiles;
    assert s.dirty - (tiles + {t}) == s.dirty - tiles - {t};
    assert s.screen + Rendering(m, s.memory, s.csVisible, tiles + {t})
           == (s.screen + Rendering(m, s.memory, s.csVisible, tiles))[t := RenderTile(m, s.memory, s.csVisible, t)];
  }
}
