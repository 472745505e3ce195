/**
 The VGA core in its own form: arrays for video memory, latches, tile flags and the tile being drawn,
 updated in place by the handlers. Each handler is proved against the step it stands for.
 */
module VgaCore {
  import opened Arith
  import opened Bytes
  import opened VgaAlu
  import opened VgaLayout
  import opened VgaRefresh

  class Core {
    const mode: Mode
    const memory: array<Byte>
    const latch: array<Byte>
    const tileUpdated: array<bool>
    const tile: array<Byte>
    var graphics: GraphicsCtrl
    var mapMask: Byte
    var memUpdated: bool
    var csCounter: nat
    var csVisible: bool
    var lastXres: nat
    var lastYres: nat
    var screen: map<Tile, seq<Byte>>

    /** The part of the invariant that no handler can touch. */
    ghost predicate Shape() {
      && VgaLayout.Valid(mode)
      && memory.Length == MEMORY_SIZE && latch.Length == 4 && tile.Length == TILE_BYTES
      && tileUpdated.Length == mode.numXTiles * mode.numYTiles
      && memory != latch && memory != tile && latch != tile
    }

    ghost predicate Consistent()
      reads this`graphics, this`csCounter
    {
      Shape() && graphics.Valid() && 0 < csCounter
    }

    /** The core after VgaCoreInitialize and a mode set: blank memory, all tiles clean, nothing drawn yet. */
    constructor (mode: Mode, graphics: GraphicsCtrl, mapMask: Byte)
      requires VgaLayout.Valid(mode) && graphics.Valid()
      ensures Consistent() && this.mode == mode && fresh(memory) && fresh(latch) && fresh(tileUpdated) && fresh(tile)
      ensures memory[..] == seq(MEMORY_SIZE, _ => ZERO) && latch[..] == [ZERO, ZERO, ZERO, ZERO] && Dirty() == {}
      ensures this.graphics == graphics && this.mapMask == mapMask && !memUpdated && screen == map[]
    {
      this.mode := mode;
      this.graphics, this.mapMask := graphics, mapMask;
      memory := new Byte[MEMORY_SIZE](_ => ZERO);
      latch := new Byte[4](_ => ZERO);
      tileUpdated := new bool[mode.numXTiles * mode.numYTiles](_ => false);
      tile := new Byte[TILE_BYTES](_ => ZERO);
      memUpdated := false;
      csCounter, csVisible := 1, false;
      lastXres, lastYres := 0, 0;
      screen := map[];
    }

    /** The index of a tile's flag. */
    function Slot(tx: nat, ty: nat): (i: nat)
      requires tx < mode.numXTiles && ty < mode.numYTiles
      ensures i < mode.numXTiles * mode.numYTiles
    {
      MulMonotone(ty + 1, mode.numYTiles, mode.numXTiles);
      tx + ty * mode.numXTiles
    }

    lemma SlotInjective(tx: nat, ty: nat, ux: nat, uy: nat)
      requires tx < mode.numXTiles && ty < mode.numYTiles && ux < mode.numXTiles && uy < mode.numYTiles
      requires Slot(tx, ty) == Slot(ux, uy)
      ensures tx == ux && ty == uy
    {
      DivMod(Slot(tx, ty), ty, mode.numXTiles, tx);
      DivMod(Slot(ux, uy), uy, mode.numXTiles, ux);
    }

    ghost function Dirty(): set<Tile>
      reads tileUpdated
      requires Shape()
    {
      set tx: nat, ty: nat | tx < mode.numXTiles && ty < mode.numYTiles && tileUpdated[Slot(tx, ty)] :: (tx, ty)
    }

    ghost function State(): Vga
      reads this, memory, latch, tileUpdated
      requires Shape()
    {
      Vga(memory[..], latch[..], graphics, mapMask, Dirty(), memUpdated, csCounter, csVisible, lastXres, lastYres,
          screen)
    }

    /** GET_TILE_UPDATED */
    method TileUpdated(tx: nat, ty: nat) returns (updated: bool)
      requires Consistent()
      ensures updated <==> (tx, ty) in Dirty()
    {
      updated := tx < mode.numXTiles && ty < mode.numYTiles && tileUpdated[Slot(tx, ty)];
    }

    /** SET_TILE_UPDATED: out-of-range tiles are ignored. */
    method SetTileUpdated(tx: nat, ty: nat, value: bool)
      requires Consistent()
      modifies tileUpdated
      ensures Consistent()
      ensures var s := old(State());
              State() == s.(dirty := if value then s.dirty + (set t | t in {(tx, ty)} && InArray(mode, t))
                                     else s.dirty - {(tx, ty)})
    {
      ghost var was := Dirty();
      if tx < mode.numXTiles && ty < mode.numYTiles {
        tileUpdated[Slot(tx, ty)] := value;
        forall ux: nat, uy: nat | ux < mode.numXTiles && uy < mode.numYTiles && (ux, uy) != (tx, ty)
          ensures (ux, uy) in Dirty() <==> (ux, uy) in was
        {
          if Slot(ux, uy) == Slot(tx, ty) {
            SlotInjective(ux, uy, tx, ty);
          }
        }
        assert (tx, ty) in Dirty() <==> value;
      }
      var expected := if value then was + (set t | t in {(tx, ty)} && InArray(mode, t)) else was - {(tx, ty)};
      forall t: Tile ensures t in Dirty() <==> t in expected {
        assert t == (t.0, t.1);
      }
    }

    method MmioWrite(address: nat, value: Byte)
      requires Consistent()
      modifies this, memory, tileUpdated
      ensures Consistent() && State() == WriteStep(mode, old(State()), address, value)
    {
      if address < VGA_BASE || address >= VGA_BASE + PLANE_SIZE {
        return;
      }
      if mode.layout.Chained? {
        ChainedWrite(address - VGA_BASE, value);
      } else {
        PlanarWrite(address - VGA_BASE, value);
      }
    }

    method ChainedWrite(o: nat, value: Byte)
      requires Consistent() && mode.layout.Chained? && o < PLANE_SIZE
      modifies this, memory, tileUpdated
      ensures Consistent() && State() == WriteStep(mode, old(State()), VGA_BASE + o, value)
    {
      StoreByte(GuestCell(mode, o, 0), value);
      if mode.lineOffset > 0 {
        memUpdated := true;
        SetMark(ChainedMark(mode, o));
        assert Dirty() == old(Dirty()) + MarkedInArray(mode, o);
      }
    }

    method PlanarWrite(o: nat, value: Byte)
      requires Consistent() && mode.layout.Planar? && o < PLANE_SIZE
      modifies this, memory, tileUpdated
      ensures Consistent() && State() == WriteStep(mode, old(State()), VGA_BASE + o, value)
    {
      hide VgaLayout.Valid, StorePlanes, SplitMark, ScrolledMark;
      if AnyPlane(mapMask) {
        memUpdated := true;
        StoreAll(o, value);
        MarkPlanar(o);
      }
    }

    /** The tiles of a planar write, in both parts of the screen. */
    method MarkPlanar(o: nat)
      requires Consistent() && mode.layout.Planar?
      modifies tileUpdated
      ensures Consistent()
      ensures State() == old(State()).(dirty := old(State()).dirty + MarkedInArray(mode, o))
    {
      hide VgaLayout.Valid, SplitMark, ScrolledMark, Dirty;
      if mode.lineOffset > 0 && mode.lineCompare < mode.verticalDisplayEnd {
        SetMark(SplitMark(mode, o));
      }
      if o >= mode.startAddr && mode.lineOffset > 0 {
        SetMark(ScrolledMark(mode, o));
      }
      assert State().dirty == old(State()).dirty + MarkedInArray(mode, o);
    }

    method SetMark(t: Tile)
      requires Consistent()
      modifies tileUpdated
      ensures Consistent()
      ensures State() == old(State()).(dirty := old(State()).dirty + (set u | u in {t} && InArray(mode, u)))
    {
      SetTileUpdated(t.0, t.1, true);
    }

    method StoreByte(cell: nat, value: Byte)
      requires Consistent() && cell < MEMORY_SIZE
      modifies memory
      ensures Consistent() && State() == old(State()).(memory := old(State()).memory[cell := value])
    {
      memory[cell] := value;
    }

    /** The four guarded plane stores of the planar write. */
    method StoreAll(o: nat, value: Byte)
      requires Consistent() && o < PLANE_SIZE
      modifies memory
      ensures Consistent()
      ensures var s := old(State());
              State() == s.(memory := StorePlanes(s.memory, o, 4, s.mapMask, NewPlanes(s, value)))
    {
      hide VgaLayout.Valid, Dirty, NewPlane;
      ghost var s := State();
      ghost var planes := NewPlanes(s, value);
      for p := 0 to 4
        invariant Consistent()
        invariant State() == s.(memory := StorePlanes(s.memory, o, p, s.mapMask, planes))
      {
        if mapMask[p] {
          StoreByte(o + p * PLANE_SIZE, NewPlane(graphics, p, value, latch[p]));
        }
      }
    }

    method MmioRead(address: nat) returns (value: Byte)
      requires Consistent()
      modifies latch
      ensures Consistent() && State() == ReadStep(mode, old(State()), address)
      ensures value == ReadResult(mode, old(State()), address)
    {
      if address >= VGA_BASE + PLANE_SIZE {
        return ONES;
      }
      var o := address % PLANE_SIZE;
      if mode.layout.Chained? {
        return memory[GuestCell(mode, o, 0)];
      }
      LoadLatches(o);
      hide VgaLayout.Valid, Dirty, ReadValue;
      value := ReadValue(graphics, latch[..]);
    }

    method LoadLatches(o: nat)
      requires Consistent() && o < PLANE_SIZE && mode.layout.Planar?
      modifies latch
      ensures Consistent()
      ensures var s := old(State());
              State() == s.(latch := [s.memory[GuestCell(mode, o, 0)], s.memory[GuestCell(mode, o, 1)],
                                      s.memory[GuestCell(mode, o, 2)], s.memory[GuestCell(mode, o, 3)]])
    {
      hide VgaLayout.Valid, Dirty;
      latch[0] := memory[GuestCell(mode, o, 0)];
      latch[1] := memory[GuestCell(mode, o, 1)];
      latch[2] := memory[GuestCell(mode, o, 2)];
      latch[3] := memory[GuestCell(mode, o, 3)];
    }

    method SetGraphics(graphics: GraphicsCtrl, mapMask: Byte)
      requires Consistent() && graphics.Valid()
      modifies this
      ensures Consistent() && State() == Step(mode, old(State()), Event.SetGraphics(graphics, mapMask))
    {
      this.graphics, this.mapMask := graphics, mapMask;
    }

    /** Marks every tile from (x0, y0) to the last tile of the request. */
    method RedrawArea(x0: nat, y0: nat, width: nat, height: nat)
      requires Consistent() && 0 < width && 0 < height
      modifies this, tileUpdated
      ensures Consistent() && State() == RedrawStep(mode, old(State()), x0, y0, width, height)
    {
      memUpdated := true;
      var (xt0, yt0) := (x0 / X_TILESIZE, y0 / Y_TILESIZE);
      var xt1 := LastTile(x0, width, lastXres, X_TILESIZE);
      var yt1 := LastTile(y0, height, lastYres, Y_TILESIZE);
      MarkBlock(xt0, yt0, xt1, yt1);
    }

    method MarkBlock(xt0: nat, yt0: nat, xt1: nat, yt1: nat)
      requires Consistent()
      modifies tileUpdated
      ensures Consistent()
      ensures State() == old(State()).(dirty := old(State()).dirty + Block(mode, xt0, yt0, xt1 + 1, yt1 + 1))
    {
      hide VgaLayout.Valid, Dirty;
      ghost var s := State();
      var yti := yt0;
      while yti <= yt1
        invariant Consistent() && (yt0 <= yti <= yt1 + 1 || yti == yt0)
        invariant State() == s.(dirty := s.dirty + Block(mode, xt0, yt0, xt1 + 1, yti))
      {
        MarkRow(xt0, xt1, yti);
        yti := yti + 1;
      }
    }

    method MarkRow(xt0: nat, xt1: nat, yti: nat)
      requires Consistent()
      modifies tileUpdated
      ensures Consistent()
      ensures State() == old(State()).(dirty := old(State()).dirty + Block(mode, xt0, yti, xt1 + 1, yti + 1))
    {
      hide VgaLayout.Valid, Dirty;
      ghost var s := State();
      var xti := xt0;
      while xti <= xt1
        invariant Consistent() && (xt0 <= xti <= xt1 + 1 || xti == xt0)
        invariant State() == s.(dirty := s.dirty + Block(mode, xt0, yti, xti, yti + 1))
      {
        SetTileUpdated(xti, yti, true);
        xti := xti + 1;
      }
    }

    /** The nested row and column loops that fill the tile buffer. */
    method FillTile(tx: nat, ty: nat)
      requires Consistent() && OnScreen(mode, (tx, ty))
      modifies tile
      ensures Consistent() && State() == old(State())
      ensures tile[..] == RenderTile(mode, memory[..], csVisible, (tx, ty))
    {
      ghost var rendered := RenderTile(mode, memory[..], csVisible, (tx, ty));
      for r := 0 to Y_TILESIZE
        invariant Consistent() && State() == old(State())
        invariant tile[..r * X_TILESIZE] == rendered[..r * X_TILESIZE]
      {
        FillRow(tx, ty, r);
      }
    }

    method FillRow(tx: nat, ty: nat, r: nat)
      requires Consistent() && OnScreen(mode, (tx, ty)) && r < Y_TILESIZE
      modifies tile
      ensures Consistent() && State() == old(State())
      ensures tile[..r * X_TILESIZE] == old(tile[..r * X_TILESIZE])
      ensures tile[r * X_TILESIZE..(r + 1) * X_TILESIZE]
              == RenderTile(mode, memory[..], csVisible, (tx, ty))[r * X_TILESIZE..(r + 1) * X_TILESIZE]
    {
      hide Pixel, VgaLayout.Valid, Dirty;
      ghost var rendered := RenderTile(mode, memory[..], csVisible, (tx, ty));
      var (xc, yc) := (X_TILESIZE * tx, Y_TILESIZE * ty);
      for c := 0 to X_TILESIZE
        invariant Consistent() && State() == old(State())
        invariant tile[..r * X_TILESIZE] == old(tile[..r * X_TILESIZE])
        invariant forall i | r * X_TILESIZE <= i < r * X_TILESIZE + c :: tile[i] == rendered[i]
      {
        ghost var i := r * X_TILESIZE + c;
        assert i % X_TILESIZE == c && i / X_TILESIZE == r;
        var colour := PixelColour(xc + c, yc + r);
        tile[r * X_TILESIZE + c] := colour;
      }
    }

    /** The byte behind plane p of a pixel. */
    function PlaneByte(x: nat, y: nat, p: nat): (b: Byte)
      reads this, memory
      requires Consistent() && p < 4 && Offset(mode, x, y) < PLANE_SIZE
      ensures b == memory[..][PixelCell(mode, x, y, p)]
    {
      memory[PixelCell(mode, x, y, p)]
    }

    /** The bits of the four planes at a pixel. */
    method BitsAt(x: nat, y: nat) returns (bits: Bits)
      requires Consistent() && mode.layout.Planar? && Offset(mode, x, y) < PLANE_SIZE
      ensures bits == PixelBits(mode, memory[..], x, y)
    {
      hide VgaLayout.Valid, Offset;
      var bit := 7 - (if mode.dotClockDiv2 then x / 2 else x) % 8;
      bits := (PlaneByte(x, y, 0)[bit], PlaneByte(x, y, 1)[bit], PlaneByte(x, y, 2)[bit], PlaneByte(x, y, 3)[bit]);
    }

    /** One pixel, read from video memory. */
    method PixelColour(x: nat, y: nat) returns (colour: Byte)
      requires Consistent() && Rendered(mode, x, y)
      ensures colour == Pixel(mode, memory[..], csVisible, x, y)
    {
      OffsetInPlane(mode, x, y);
      hide VgaLayout.Valid, Offset, Colour, Pixel, PixelCell, PixelBits, Rendered;
      if mode.layout.Chained? {
        PixelIsByte(mode, memory[..], csVisible, x, y);
        return PlaneByte(x, y, 0);
      }
      PixelIsColour(mode, memory[..], csVisible, x, y);
      var bits := BitsAt(x, y);
      colour := Colour(mode, bits, csVisible);
    }

    /** The blink countdown that opens a refresh: whether to go on, and whether the phase flipped. */
    method CountDown() returns (proceeds: bool, toggle: bool)
      requires Consistent()
      modifies this`csCounter, this`csVisible
      ensures Consistent()
      ensures var (s, gate) := (old(State()), RefreshGate(mode, old(State())));
              && proceeds == gate.proceeds && toggle == gate.toggle
              && State() == s.(csCounter := gate.counter, csVisible := gate.visible)
    {
      assert 0 < mode.blinkCounter;
      hide VgaLayout.Valid;
      csCounter := csCounter - 1;
      if !memUpdated && csCounter > 0 {
        return false, false;
      }
      if csCounter == 0 {
        csCounter := mode.blinkCounter;
        if mode.blinkIntensity {
          csVisible := !csVisible;
          return true, true;
        } else {
          if !memUpdated {
            return false, false;
          }
          csVisible := false;
        }
      }
      return true, false;
    }

    /** One VgaCoreUpdate: the countdown, then every tile that is dirty (or, when the phase flips, every
        planar tile) is filled, handed to the GUI and marked clean. */
    method Update(skip: bool)
      requires Consistent()
      modifies this, tile, tileUpdated
      ensures Consistent() && State() == RefreshStep(mode, old(State()), skip)
    {
      hide VgaLayout.Valid, RefreshGate, Rendering, DrawnTiles, Dirty;
      var proceeds, toggle := CountDown();
      if !proceeds {
        return;
      }
      lastXres, lastYres := mode.width, mode.verticalDisplayEnd + 1;
      if skip {
        return;
      }
      DrawTiles(mode.layout.Planar? && toggle);
      memUpdated := false;
    }

    method DrawTiles(all: bool)
      requires Consistent()
      modifies this`screen, tile, tileUpdated
      ensures Consistent()
      ensures State() == AfterDrawing(mode, old(State()), DrawnTiles(mode, old(State()).dirty, all))
    {
      hide VgaLayout.Valid, DrawnTiles, DrawnUpTo, AfterDrawing, Dirty;
      ghost var s := State();
      var yti := 0;
      DrawnPrefix(mode, s.dirty, all, 0, 0);
      NothingDrawn(mode, s);
      while yti * Y_TILESIZE < mode.verticalDisplayEnd + 1
        invariant Consistent() && yti <= Rows(mode)
        invariant State() == AfterDrawing(mode, s, DrawnUpTo(mode, s.dirty, all, 0, yti))
      {
        var xti := 0;
        while xti * X_TILESIZE < mode.width
          invariant Consistent() && yti < Rows(mode) && xti <= Columns(mode)
          invariant State() == AfterDrawing(mode, s, DrawnUpTo(mode, s.dirty, all, xti, yti))
        {
          DrawnPrefix(mode, s.dirty, all, xti, yti);
          DrawOne(s, all, DrawnUpTo(mode, s.dirty, all, xti, yti), xti, yti);
          xti := xti + 1;
        }
        DrawnPrefix(mode, s.dirty, all, 0, yti);
        yti := yti + 1;
      }
    }

    /** The body of the refresh loop: one tile, if it is to be drawn. */
    method DrawOne(ghost s: Vga, all: bool, ghost drawn: set<Tile>, tx: nat, ty: nat)
      requires Consistent() && OnScreen(mode, (tx, ty)) && |s.memory| == MEMORY_SIZE
      requires (forall t | t in drawn :: OnScreen(mode, t)) && (tx, ty) !in drawn
      requires State() == AfterDrawing(mode, s, drawn)
      modifies this`screen, tile, tileUpdated
      ensures Consistent()
      ensures State() == AfterDrawing(mode, s, drawn + if all || (tx, ty) in s.dirty then {(tx, ty)} else {})
    {
      AfterDrawingGrows(mode, s, drawn, (tx, ty));
      var updated := TileUpdated(tx, ty);
      assert updated <==> (tx, ty) in s.dirty;
      hide VgaLayout.Valid, AfterDrawing, Dirty, RenderTile;
      if all || updated {
        FillTile(tx, ty);
        SetTileUpdated(tx, ty, false);
        screen := screen[(tx, ty) := tile[..]];
      }
    }
  }
}
