/**
 When the refresh has work: which tiles a redraw request marks, and when the blink phase flips.
 */
module VgaRequests {
  import opened Arith
  import opened VgaLayout
  import opened VgaRefresh

  // ----- redraw requests

  /** A request that starts on screen takes the tiles its pixels lie in; one that starts past the end takes its own
      tile if that is the last one on screen. */
  ghost predicate Requested(from: nat, length: nat, resolution: nat, size: nat, tile: nat) {
    if from < resolution then exists p :: from <= p < from + length && InTile(p, size, tile)
    else InTile(from, size, tile) && InTile(resolution - 1, size, tile)
  }

  predicate InTile(p: int, size: nat, tile: nat) {
    tile * size <= p < tile * size + size
  }

  lemma InTileIs(p: nat, size: nat, tile: nat)
    requires size > 0
    ensures InTile(p, size, tile) <==> p / size == tile
  {
    if InTile(p, size, tile) {
      DivMod(p, tile, size, p - tile * size);
    }
  }

  lemma AxisIff(from: nat, length: nat, resolution: nat, size: nat, tile: nat)
    requires 0 < length && 0 < size && 0 < resolution < 0x1_0000_0000
    ensures from / size <= tile <= LastTile(from, length, resolution, size)
            <==> Requested(from, length, resolution, size, tile)
  {
    InTileIs(from, size, tile);
    if from < resolution {
      var last := from + length - 1;
      if from / size <= tile <= last / size {
        var p := if tile == from / size then from else tile * size;
        TileStart(from, last, size, tile);
        assert InTile(p, size, tile);
      } else if p :| from <= p <= last && InTile(p, size, tile) {
        InTileIs(p, size, tile);
        DivMonotone(from, p, size);
        DivMonotone(p, last, size);
      }
    } else {
      InTileIs(resolution - 1, size, tile);
      DivMonotone(resolution - 1, from, size);
    }
  }

  lemma TileStart(from: nat, last: nat, size: nat, tile: nat)
    requires 0 < size && from / size <= tile <= last / size
    ensures tile == from / size || from <= tile * size <= last
    ensures tile == from / size ==> InTile(from, size, tile)
  {
    InTileIs(from, size, from / size);
    InTileIs(last, size, last / size);
    MulMonotone(tile, last / size, size);
    if tile > from / size {
      MulMonotone(from / size + 1, tile, size);
    }
  }

  /** A redraw request marks exactly the tiles of the array that the rectangle asks for. */
  lemma RedrawMarksIff(m: Mode, s: Vga, x0: nat, y0: nat, width: nat, height: nat, t: Tile)
    requires 0 < width && 0 < height && 0 < s.lastXres < 0x1_0000_0000 && 0 < s.lastYres < 0x1_0000_0000
    ensures t in RedrawStep(m, s, x0, y0, width, height).dirty
            <==> || t in s.dirty
                 || (InArray(m, t) && Requested(x0, width, s.lastXres, 16, t.0)
                     && Requested(y0, height, s.lastYres, 24, t.1))
  {
    AxisIff(x0, width, s.lastXres, 16, t.0);
    AxisIff(y0, height, s.lastYres, 24, t.1);
    assert t == (t.0, t.1);
    hide Requested, LastTile;
  }

  /** After a refresh that had something to draw, suppressed or not, a request within the screen marks exactly the
      tiles of the array that its pixels lie in. */
  lemma RequestAfterRefresh(m: Mode, s: Vga, skip: bool, x0: nat, y0: nat, width: nat, height: nat, t: Tile)
    requires WellFormed(m, s) && s.memUpdated && 0 < width && 0 < height && Visible(m, x0, y0)
    requires m.width < 0x1_0000_0000
    ensures t in RedrawStep(m, RefreshStep(m, s, skip), x0, y0, width, height).dirty
            <==> || t in RefreshStep(m, s, skip).dirty
                 || (InArray(m, t) && (exists x :: x0 <= x < x0 + width && InTile(x, 16, t.0))
                     && exists y :: y0 <= y < y0 + height && InTile(y, 24, t.1))
  {
    var r := RefreshStep(m, s, skip);
    assert r.lastXres == m.width && r.lastYres == m.verticalDisplayEnd + 1;
    assert m.verticalDisplayEnd < 1024;
    hide RefreshStep, VgaLayout.Valid, RedrawStep;
    RedrawMarksIff(m, r, x0, y0, width, height, t);
  }

  // ----- the blink phase

  function Refreshes(es: seq<Event>): nat {
    if es == [] then 0 else (if es[0].Refresh? then 1 else 0) + Refreshes(es[1..])
  }

  /** The flips in n refreshes, when the counter stands at c. */
  function Flips(n: nat, c: nat, period: nat): nat
    requires 0 < c <= period
  {
    (n + period - c) / period
  }

  function CounterAfter(n: nat, c: nat, period: nat): nat
    requires 0 < c <= period
  {
    period - (n + period - c) % period
  }

  lemma OneRefresh(n: nat, c: nat, period: nat)
    requires 0 < c <= period
    ensures c > 1 ==> && Flips(n + 1, c, period) == Flips(n, c - 1, period)
                      && CounterAfter(n + 1, c, period) == CounterAfter(n, c - 1, period)
    ensures c == 1 ==> && Flips(n + 1, c, period) == Flips(n, period, period) + 1
                       && CounterAfter(n + 1, c, period) == CounterAfter(n, period, period)
  {
    DivMod(n + period, n / period + 1, period, n % period);
  }

  lemma NoRefresh(c: nat, period: nat)
    requires 0 < c <= period
    ensures Flips(0, c, period) == 0 && CounterAfter(0, c, period) == c
  {
    DivMod(period - c, 0, period, period - c);
  }

  lemma StepCounts(m: Mode, s: Vga, e: Event)
    requires WellFormed(m, s) && ValidEvent(e)
    ensures var r := Step(m, s, e);
            if !e.Refresh? then r.csCounter == s.csCounter && r.csVisible == s.csVisible
            else
              && r.csCounter == (if s.csCounter > 1 then s.csCounter - 1 else m.blinkCounter)
              && (m.blinkIntensity ==> r.csVisible == (s.csVisible != (s.csCounter == 1)))
  {
    hide VgaLayout.Valid, Drawn, StorePlanes, MarkedInArray;
  }

  /** r is n refreshes after a state with counter c and this phase. */
  predicate Counted(m: Mode, c: nat, visible: bool, n: nat, r: Vga)
    requires 0 < c <= m.blinkCounter
  {
    && r.csCounter == CounterAfter(n, c, m.blinkCounter)
    && (m.blinkIntensity ==> r.csVisible == (visible != (Flips(n, c, m.blinkCounter) % 2 == 1)))
  }

  lemma CountedOn(m: Mode, c: nat, visible: bool, d: nat, flipped: bool, refresh: bool, n: nat, r: Vga)
    requires 0 < c <= m.blinkCounter && d == (if !refresh then c else if c > 1 then c - 1 else m.blinkCounter)
    requires m.blinkIntensity ==> flipped == (visible != (refresh && c == 1))
    requires Counted(m, d, flipped, n, r)
    ensures Counted(m, c, visible, n + if refresh then 1 else 0, r)
  {
    OneRefresh(n, c, m.blinkCounter);
    hide Flips, CounterAfter;
  }

  lemma CountedStep(m: Mode, s: Vga, e: Event, n: nat, r: Vga)
    requires WellFormed(m, s) && ValidEvent(e) && 0 < s.csCounter <= m.blinkCounter
    ensures 0 < Step(m, s, e).csCounter <= m.blinkCounter
    ensures Counted(m, Step(m, s, e).csCounter, Step(m, s, e).csVisible, n, r) ==>
              Counted(m, s.csCounter, s.csVisible, n + if e.Refresh? then 1 else 0, r)
  {
    hide *;
    StepCounts(m, s, e);
    var t := Step(m, s, e);
    if Counted(m, t.csCounter, t.csVisible, n, r) {
      CountedOn(m, s.csCounter, s.csVisible, t.csCounter, t.csVisible, e.Refresh?, n, r);
    }
  }

  /** Over any run the refreshes, suppressed or not, with or without anything to draw, count down the blink period;
      with blinking on, the phase flips once each time it is over. */
  lemma {:induction false} BlinkPeriod(m: Mode, s: Vga, es: seq<Event>)
    requires WellFormed(m, s) && ValidRun(es) && 0 < s.csCounter <= m.blinkCounter
    ensures Counted(m, s.csCounter, s.csVisible, Refreshes(es), Run(m, s, es))
    decreases |es|
  {
    if es == [] {
      NoRefresh(s.csCounter, m.blinkCounter);
    } else {
      hide Step, Counted, WellFormed;
      StepWellFormed(m, s, es[0]);
      CountedStep(m, s, es[0], Refreshes(es[1..]), Run(m, s, es));
      BlinkPeriod(m, Step(m, s, es[0]), es[1..]);
    }
  }
}
