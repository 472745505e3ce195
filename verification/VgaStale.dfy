/**
 Where the incremental refresh falls short: screens that stay wrong because a planar write marks too few tiles,
 or because a refresh that flips the blink phase is suppressed.
 */
module VgaStale {
  import opened Bytes
  import opened VgaAlu
  import opened VgaLayout
  import opened VgaRefresh

  function Flip(bits: Bits, p: nat): Bits {
    (bits.0 != (p == 0), bits.1 != (p == 1), bits.2 != (p == 2), bits.3 != (p == 3))
  }

  // ----- incomplete marking

  /** The palette distinguishes the values of plane p. */
  ghost predicate PaletteSees(m: Mode, p: nat)
    requires |m.palette| == 16
  {
    forall bits: Bits, visible: bool :: Colour(m, bits, visible) != Colour(m, Flip(bits, p), visible)
  }

  function Nibble(bits: Bits): nat {
    (if bits.0 then 1 else 0) + (if bits.1 then 2 else 0) + (if bits.2 then 4 else 0) + (if bits.3 then 8 else 0)
  }

  /** Entry n of the palette has n in its low four bits, as after a mode set. */
  ghost predicate IdentityPalette(m: Mode) {
    && |m.palette| == 16 && m.colorPlaneEnable == ONES && m.pelMask == ONES && !m.blinkIntensity
    && forall bits: Bits :: var e := m.palette[Nibble(bits)]; (e[0], e[1], e[2], e[3]) == bits
  }

  lemma IdentityPaletteSees(m: Mode, p: nat)
    requires IdentityPalette(m) && p < 4
    ensures PaletteSees(m, p)
  {
    forall bits: Bits, visible: bool
      ensures Colour(m, bits, visible) != Colour(m, Flip(bits, p), visible)
    {
      IdentityColour(m, bits, visible);
      IdentityColour(m, Flip(bits, p), visible);
      hide Colour, IdentityPalette;
      assert bits != Flip(bits, p);
    }
  }

  lemma IdentityColour(m: Mode, bits: Bits, visible: bool)
    requires IdentityPalette(m)
    ensures var c := Colour(m, bits, visible); (c[0], c[1], c[2], c[3]) == bits
  {
    var e := m.palette[Nibble(bits)];
    assert (e[0], e[1], e[2], e[3]) == bits;
    hide IdentityPalette;
  }

  /** The CPU byte goes unchanged to plane p and to no other. */
  predicate StoresPlainly(s: Vga, p: nat) {
    && p < 4 && (forall q | 0 <= q < 4 :: s.mapMask[q] == (q == p))
    && s.graphics.writeMode == 0 && s.graphics.rasterOp == 0 && s.graphics.dataRotate == 0
    && s.graphics.bitMask == ONES && !s.graphics.enableSetReset[p]
  }

  lemma PlainPlane(gc: GraphicsCtrl, p: nat, cpu: Byte, latch: Byte)
    requires gc.Valid() && p < 4 && gc.writeMode == 0 && gc.rasterOp == 0 && gc.dataRotate == 0
    requires gc.bitMask == ONES && !gc.enableSetReset[p]
    ensures NewPlane(gc, p, cpu, latch) == cpu
  {
    forall k | 0 <= k < 8
      ensures WriteMode0(gc, p, cpu, latch)[k] == cpu[k]
    {
      Mode0Bit(gc, p, cpu, latch, k);
    }
  }

  /** The only cell such a write changes. */
  lemma PlainStore(m: Mode, s: Vga, p: nat, o: nat, value: Byte)
    requires WellFormed(m, s) && m.layout.Planar? && StoresPlainly(s, p) && o < PLANE_SIZE
    ensures var w := WriteStep(m, s, VGA_BASE + o, value);
            && w.memory == s.memory[o + p * PLANE_SIZE := value] && w.memUpdated
            && w.dirty == s.dirty + MarkedInArray(m, o) && w.csVisible == s.csVisible && w.csCounter == s.csCounter
            && w.screen == s.screen
  {
    PlainPlane(s.graphics, p, value, s.latch[p]);
    var planes := NewPlanes(s, value);
    assert planes[p] == value;
    hide NewPlanes, NewPlane, VgaLayout.Valid;
    assert s.mapMask[p] && AnyPlane(s.mapMask);
    PlainPlanes(s.memory, o, s.mapMask, planes, p);
  }

  lemma PlainPlanes(memory: seq<Byte>, o: nat, mapMask: Byte, planes: seq<Byte>, p: nat)
    requires |memory| == MEMORY_SIZE && o < PLANE_SIZE && |planes| == 4 && p < 4
    requires forall q | 0 <= q < 4 :: mapMask[q] == (q == p)
    ensures StorePlanes(memory, o, 4, mapMask, planes) == memory[o + p * PLANE_SIZE := planes[p]]
  {
    assert StorePlanes(memory, o, 1, mapMask, planes) == if p == 0 then memory[o := planes[0]] else memory;
    assert StorePlanes(memory, o, 2, mapMask, planes)
           == if p <= 1 then memory[o + p * PLANE_SIZE := planes[p]] else memory;
    assert StorePlanes(memory, o, 3, mapMask, planes)
           == if p <= 2 then memory[o + p * PLANE_SIZE := planes[p]] else memory;
  }

  /** Complementing the byte of plane p behind a pixel flips that plane's bit of it. */
  lemma ComplementFlips(m: Mode, memory: seq<Byte>, p: nat, x: nat, y: nat)
    requires |memory| == MEMORY_SIZE && Offset(m, x, y) < PLANE_SIZE && m.layout.Planar? && p < 4
    ensures var cell := PixelCell(m, x, y, p);
            PixelBits(m, memory[cell := Not(memory[cell])], x, y) == Flip(PixelBits(m, memory, x, y), p)
  {
    hide Offset;
  }

  /** The refresh redraws a clean tile only where it flips the blink phase of a planar mode. */
  predicate Flips(m: Mode, w: Vga) {
    m.layout.Planar? && m.blinkIntensity && w.csCounter <= 1
  }

  lemma CleanTileKept(m: Mode, w: Vga, t: Tile)
    requires WellFormed(m, w) && t !in w.dirty && !Flips(m, w)
    ensures var r := RefreshStep(m, w, false);
            && r.memory == w.memory && (t in r.screen <==> t in w.screen)
            && (t in r.screen ==> r.screen[t] == w.screen[t])
            && (m.layout.Planar? && m.blinkIntensity ==> r.csVisible == w.csVisible)
  {
    hide VgaLayout.Valid, RenderTile;
  }

  /** So a clean pixel that shows an old colour still does after the refresh. */
  lemma StaysStale(m: Mode, w: Vga, x: nat, y: nat, shown: Byte)
    requires WellFormed(m, w) && Visible(m, x, y) && Rendered(m, x, y) && TileOf(x, y) !in w.dirty && !Flips(m, w)
    requires Shows(w, x, y, shown) && Pixel(m, w.memory, RefreshStep(m, w, false).csVisible, x, y) != shown
    ensures !ScreenCurrent(m, RefreshStep(m, w, false))
  {
    CleanTileKept(m, w, TileOf(x, y));
    hide VgaLayout.Valid, Pixel, RefreshStep, Visible, Rendered, TileOf;
    assert !PixelCurrent(m, RefreshStep(m, w, false), x, y);
  }

  /** In the chained layout, where the marking condition fails there is a coherent screen and one guest write after
      which a refresh leaves a wrong pixel. */
  lemma ChainedMarkingShows(m: Mode, s: Vga) returns (address: nat, value: Byte)
    requires WellFormed(m, s) && m.layout.Chained? && !MarkingComplete(m)
    requires s.dirty == {} && !s.memUpdated && ScreenCurrent(m, s)
    ensures Coherent(m, s)
    ensures !ScreenCurrent(m, RefreshStep(m, WriteStep(m, s, address, value), false))
  {
    hide LineStart, LineIndex, LineColumn, MarkingComplete;
    ChainedPastEnd(m);
    ChainedPastEndUnmarked(m);
    var (x, o) := (2 * m.lineOffset, m.startAddr + m.lineOffset);
    VisibleIsRendered(m, x, 0);
    assert PixelCurrent(m, s, x, 0);
    assert Offset(m, x, 0) < PLANE_SIZE;
    hide VgaLayout.Valid, Marked, Visible, Rendered, RefreshStep;
    var cell := GuestCell(m, o, 0);
    address, value := VGA_BASE + o, Not(s.memory[cell]);
    var w := WriteStep(m, s, address, value);
    StepWellFormed(m, s, Write(address, value));
    assert Pixel(m, s.memory, s.csVisible, x, 0) == s.memory[cell] && Pixel(m, w.memory, true, x, 0) == value;
    assert value[0] != s.memory[cell][0];
    PhaseIrrelevant(m, w.memory, x, 0, true, RefreshStep(m, w, false).csVisible);
    StaysStale(m, w, x, 0, s.memory[cell]);
  }

  lemma UnmarkedReader(m: Mode) returns (x: nat, y: nat, o: nat)
    requires VgaLayout.Valid(m) && m.layout.Planar? && !MarkingComplete(m)
    ensures Visible(m, x, y) && o < PLANE_SIZE && Offset(m, x, y) == o && TileOf(x, y) !in Marked(m, o)
  {
    MarkingCompleteIff(m);
    hide VgaLayout.Valid, MarkingComplete, Marked, Visible, Offset;
    x, y, o :| Visible(m, x, y) && o < PLANE_SIZE && Reads(m, x, y, o) && TileOf(x, y) !in Marked(m, o);
  }

  /** A palette that sees plane p shows the flip, in the phase after the refresh. */
  lemma FlipShows(m: Mode, s: Vga, w: Vga, x: nat, y: nat, p: nat)
    requires WellFormed(m, s) && WellFormed(m, w) && m.layout.Planar? && Rendered(m, x, y)
    requires PaletteSees(m, p) && !Flips(m, w) && w.csVisible == s.csVisible && TileOf(x, y) !in w.dirty
    requires Offset(m, x, y) < PLANE_SIZE && PixelBits(m, w.memory, x, y) == Flip(PixelBits(m, s.memory, x, y), p)
    ensures Pixel(m, w.memory, RefreshStep(m, w, false).csVisible, x, y) != Pixel(m, s.memory, s.csVisible, x, y)
  {
    CleanTileKept(m, w, TileOf(x, y));
    hide RefreshStep;
    var visible := RefreshStep(m, w, false).csVisible;
    if visible != s.csVisible {
      PhaseIrrelevant(m, s.memory, x, y, s.csVisible, visible);
    }
    PixelIsColour(m, s.memory, visible, x, y);
    PixelIsColour(m, w.memory, visible, x, y);
    hide VgaLayout.Valid, Pixel, Colour, PixelBits, Offset, Rendered, Flip;
  }

  /** In the planar layout too, where the marking condition fails there is a coherent screen and one guest write
      after which a refresh leaves a wrong pixel, unless that refresh happens to flip the blink phase. */
  lemma PlanarMarkingShows(m: Mode, s: Vga, p: nat) returns (address: nat, value: Byte)
    requires WellFormed(m, s) && m.layout.Planar? && !MarkingComplete(m) && !Flips(m, s)
    requires s.dirty == {} && !s.memUpdated && ScreenCurrent(m, s)
    requires StoresPlainly(s, p) && PaletteSees(m, p)
    ensures Coherent(m, s)
    ensures !ScreenCurrent(m, RefreshStep(m, WriteStep(m, s, address, value), false))
  {
    var x, y, o := UnmarkedReader(m);
    assert PixelCurrent(m, s, x, y);
    hide VgaLayout.Valid, MarkingComplete, Marked, Offset, PixelCurrent, WriteStep, RefreshStep, ScreenCurrent;
    address, value := VGA_BASE + o, Not(s.memory[o + p * PLANE_SIZE]);
    UnmarkedWriteShows(m, s, p, x, y, value);
  }

  lemma UnmarkedWriteShows(m: Mode, s: Vga, p: nat, x: nat, y: nat, value: Byte)
    requires WellFormed(m, s) && m.layout.Planar? && !Flips(m, s) && s.dirty == {}
    requires StoresPlainly(s, p) && PaletteSees(m, p)
    requires Visible(m, x, y) && PixelCurrent(m, s, x, y) && Offset(m, x, y) < PLANE_SIZE
    requires TileOf(x, y) !in Marked(m, Offset(m, x, y)) && value == Not(s.memory[PixelCell(m, x, y, p)])
    ensures !ScreenCurrent(m, RefreshStep(m, WriteStep(m, s, VGA_BASE + Offset(m, x, y), value), false))
  {
    var w := WriteStep(m, s, VGA_BASE + Offset(m, x, y), value);
    VisibleIsRendered(m, x, y);
    StepWellFormed(m, s, Write(VGA_BASE + Offset(m, x, y), value));
    WrittenBits(m, s, p, x, y, value);
    StillClean(m, s, p, Offset(m, x, y), value, x, y);
    hide WriteStep, RefreshStep, WellFormed, StoresPlainly, PaletteSees, Offset, TileOf, Rendered, Visible, Shows;
    hide VgaLayout.Valid, Pixel, PixelBits, Flip, Marked, Flips, ScreenCurrent;
    FlipShows(m, s, w, x, y, p);
    StaysStale(m, w, x, y, Pixel(m, s.memory, s.csVisible, x, y));
  }

  lemma WrittenBits(m: Mode, s: Vga, p: nat, x: nat, y: nat, value: Byte)
    requires WellFormed(m, s) && m.layout.Planar? && StoresPlainly(s, p) && Offset(m, x, y) < PLANE_SIZE
    requires value == Not(s.memory[PixelCell(m, x, y, p)])
    ensures var w := WriteStep(m, s, VGA_BASE + Offset(m, x, y), value);
            |w.memory| == MEMORY_SIZE && PixelBits(m, w.memory, x, y) == Flip(PixelBits(m, s.memory, x, y), p)
  {
    PlainStore(m, s, p, Offset(m, x, y), value);
    ComplementFlips(m, s.memory, p, x, y);
    hide WriteStep, PixelBits, Flip, Offset, StoresPlainly;
  }

  lemma StillClean(m: Mode, s: Vga, p: nat, o: nat, value: Byte, x: nat, y: nat)
    requires WellFormed(m, s) && m.layout.Planar? && StoresPlainly(s, p) && o < PLANE_SIZE
    requires s.dirty == {} && TileOf(x, y) !in Marked(m, o) && Visible(m, x, y) && PixelCurrent(m, s, x, y)
    ensures var w := WriteStep(m, s, VGA_BASE + o, value);
            && TileOf(x, y) !in w.dirty && w.csVisible == s.csVisible && (Flips(m, w) <==> Flips(m, s))
            && Rendered(m, x, y) && Shows(w, x, y, Pixel(m, s.memory, s.csVisible, x, y))
  {
    VisibleIsRendered(m, x, y);
    PlainStore(m, s, p, o, value);
    hide WriteStep, StoresPlainly, Pixel, Marked, TileOf, VgaLayout.Valid;
  }

  // ----- a suppressed flip of the blink phase

  // A screen of eight pixels of colour 15 on one line, whose palette shows colour 15 only; the next refresh flips
  // the blink phase.
  const BLINK_PALETTE: seq<Byte> := seq(15, _ => ZERO) + [ONES]
  const BLINK_MODE :=
    Mode(Planar, 0, 2, 1023, 0, 8, false, false, true, 1, BLINK_PALETTE, ONES, ZERO, false, ONES, 1, 1)
  const BLINK_MEMORY: seq<Byte> := seq(MEMORY_SIZE, _ => ONES)

  lemma BlinkModeValid()
    ensures VgaLayout.Valid(BLINK_MODE)
  {
    forall x: nat, y: nat | Rendered(BLINK_MODE, x, y)
      ensures Offset(BLINK_MODE, x, y) < PLANE_SIZE
    {
      assert x < 16 && y < 24;
    }
  }

  lemma BlinkPixel(visible: bool)
    requires VgaLayout.Valid(BLINK_MODE) && Rendered(BLINK_MODE, 0, 0)
    ensures Pixel(BLINK_MODE, BLINK_MEMORY, visible, 0, 0)[0] == visible
  {
  }

  /** One tile on screen, drawn in the visible phase, and the phase about to flip. */
  function BlinkState(m: Mode, memory: seq<Byte>, graphics: GraphicsCtrl, latch: seq<Byte>): Vga
    requires VgaLayout.Valid(m) && OnScreen(m, (0, 0)) && |memory| == MEMORY_SIZE
  {
    Vga(memory, latch, graphics, ONES, {}, false, 1, true, 8, 1, map[(0, 0) := RenderTile(m, memory, true, (0, 0))])
  }

  lemma BlinkStateCoherent(m: Mode, memory: seq<Byte>, graphics: GraphicsCtrl, latch: seq<Byte>)
    requires VgaLayout.Valid(m) && OnScreen(m, (0, 0)) && |memory| == MEMORY_SIZE && graphics.Valid() && |latch| == 4
    requires forall x: nat, y: nat | Visible(m, x, y) :: TileOf(x, y) == (0, 0)
    ensures Coherent(m, BlinkState(m, memory, graphics, latch))
  {
    var s := BlinkState(m, memory, graphics, latch);
    hide VgaLayout.Valid, Pixel, RenderTile, Visible, TileOf;
    forall x: nat, y: nat | Visible(m, x, y)
      ensures PixelCurrent(m, s, x, y)
    {
      RenderedPixel(m, memory, true, x, y);
      PlaceInTile(x, y);
    }
  }

  /** A coherent clean screen, with any registers and latches, that one suppressed flip leaves wrong. */
  lemma SuppressedFlipShows(graphics: GraphicsCtrl, latch: seq<Byte>)
    requires graphics.Valid() && |latch| == 4
    ensures VgaLayout.Valid(BLINK_MODE)
    ensures var s := BlinkState(BLINK_MODE, BLINK_MEMORY, graphics, latch);
            && Coherent(BLINK_MODE, s) && s.dirty == {} && SuppressedFlip(BLINK_MODE, s, Refresh(true))
            && !ScreenCurrent(BLINK_MODE, RefreshStep(BLINK_MODE, s, true))
  {
    BlinkModeValid();
    BlinkStateCoherent(BLINK_MODE, BLINK_MEMORY, graphics, latch);
    var s := BlinkState(BLINK_MODE, BLINK_MEMORY, graphics, latch);
    assert SuppressedFlip(BLINK_MODE, s, Refresh(true));
    SuppressedFlipIff(BLINK_MODE, s);
    StepWellFormed(BLINK_MODE, s, Refresh(true));
    assert Visible(BLINK_MODE, 0, 0);
    VisibleIsRendered(BLINK_MODE, 0, 0);
    BlinkPixel(true);
    BlinkPixel(false);
    hide VgaLayout.Valid, Pixel, RenderTile, PixelCurrent;
    assert !PhaseBlind(BLINK_MODE, s);
  }
}
