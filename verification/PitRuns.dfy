/**
 Runs of the PIT's timer: every wake-up handles the time it was scheduled for and schedules the next.
 Timer firings are taken at exactly the scheduled time. `edges` counts rising edges of IRQ 0.
 */
module PitRuns {
  import opened Arith
  import opened PitModel

  datatype Channel = Channel(
    mode: nat, count: nat, load: nat, next: int, active: bool, enabled: bool, line: bool, edges: nat)

  ghost predicate Counting(ch: Channel) {
    ValidMode(ch.mode) && 0 < ch.count <= 0x1_0000
  }

  ghost predicate Loaded(ch: Channel) {
    Counting(ch) && (ch.active ==> ch.next > ch.load)
  }

  function RaiseLine(ch: Channel): Channel {
    if ch.line then ch else ch.(line := true, edges := ch.edges + 1)
  }

  function LowerLine(ch: Channel): Channel { ch.(line := false) }

  /** The interrupt part: pulse modes flip the line on timer wake-ups, the others follow the output. */
  function DriveLine(m: Arithmetic, ch: Channel, now: nat, timer: bool): Channel
    requires Counting(ch) && ch.load <= now
  {
    if !ch.enabled then ch
    else if ch.mode in {2, 4, 5} then if timer then RaiseLine(LowerLine(ch)) else ch
    else if Out(ch.mode, ch.count, Ticks(m, now - ch.load)) then RaiseLine(ch)
    else LowerLine(ch)
  }

  function Update(m: Arithmetic, ch: Channel, now: nat, timer: bool): Channel
    requires Counting(ch) && ch.load <= now
  {
    var next := NextTransition(m, ch.mode, ch.count, ch.load, now);
    DriveLine(m, ch, now, timer).(next := next, active := next != -1)
  }

  /** A count of zero means 65536. */
  function LoadCount(m: Arithmetic, ch: Channel, value: nat, clock: nat): Channel
    requires ValidMode(ch.mode) && value < 0x1_0000
  {
    var count := if value == 0 then 0x1_0000 else value;
    Update(m, ch.(count := count, load := clock), clock, false)
  }

  function Fire(m: Arithmetic, ch: Channel): Channel
    requires Loaded(ch) && ch.active
  {
    Update(m, ch, ch.next, true)
  }

  predicate Periodic(mode: nat) { mode == 2 || mode == 3 }

  lemma UpdateLoaded(m: Arithmetic, ch: Channel, now: nat, timer: bool)
    requires Counting(ch) && ch.load <= now
    ensures Loaded(Update(m, ch, now, timer))
    ensures Periodic(ch.mode) ==> Update(m, ch, now, timer).active
  {
    hide Ticks, Time, Out;
    BaseAndPhase(ch.count, Ticks(m, now - ch.load));
    hide Base, Phase;
  }

  /** k wake-ups in a row. */
  function Wakes(m: Arithmetic, ch: Channel, k: nat): (r: Channel)
    requires Loaded(ch) && ch.active && Periodic(ch.mode)
    ensures Loaded(r) && r.active && r.mode == ch.mode && r.count == ch.count
    ensures r.load == ch.load && r.enabled == ch.enabled
  {
    if k == 0 then ch
    else
      var w := Wakes(m, ch, k - 1);
      UpdateLoaded(m, w, w.next, true);
      Fire(m, w)
  }

  /** The k-th boundary after the load: whole periods in mode 2, half periods in mode 3. */
  function Boundary(mode: nat, count: nat, k: nat): nat {
    if mode == 3 && count >= 2 then k / 2 * count + k % 2 * ((count + 1) / 2) else k * count
  }

  lemma BoundaryPhase(mode: nat, count: nat, k: nat)
    requires Periodic(mode) && count > 0
    ensures Phase(count, Boundary(mode, count, k))
            == if mode == 3 && count >= 2 && k % 2 == 1 then (count + 1) / 2 else 0
    ensures Base(count, Boundary(mode, count, k)) == Boundary(mode, count, k) - Phase(count, Boundary(mode, count, k))
  {
    if mode == 3 && count >= 2 && k % 2 == 1 {
      DivMod(Boundary(mode, count, k), k / 2, count, (count + 1) / 2);
    } else if mode == 3 && count >= 2 {
      DivMod(Boundary(mode, count, k), k / 2, count, 0);
    } else {
      DivMod(Boundary(mode, count, k), k, count, 0);
    }
  }

  /** From one boundary the next tick scheduled is the next boundary. */
  lemma BoundaryFollows(mode: nat, count: nat, k: nat)
    requires Periodic(mode) && count > 0
    ensures NextTick(mode, count, Boundary(mode, count, k)) == Boundary(mode, count, k + 1)
    ensures Boundary(mode, count, k) < Boundary(mode, count, k + 1)
  {
    BoundaryPhase(mode, count, k);
    if mode == 3 && count >= 2 {
      if k % 2 == 1 {
        assert (k + 1) / 2 == k / 2 + 1 && (k + 1) % 2 == 0;
        assert (k / 2 + 1) * count == k / 2 * count + count;
      } else {
        assert (k + 1) / 2 == k / 2 && (k + 1) % 2 == 1;
      }
    } else {
      assert (k + 1) * count == k * count + count;
    }
  }

  /** A channel just loaded, scheduled for its first boundary; a square wave starts high. */
  ghost predicate Fresh(m: Arithmetic, ch: Channel) {
    && Loaded(ch) && Periodic(ch.mode) && ch.active && (ch.mode == 3 && ch.enabled ==> ch.line)
    && ch.next == NextTransition(m, ch.mode, ch.count, ch.load, ch.load)
  }

  lemma StartsHigh(m: Arithmetic, count: nat)
    requires count > 0
    ensures Out(3, count, Ticks(m, 0))
  {
    assert Ticks(m, 0) == 0;
  }

  lemma LoadIsFresh(m: Arithmetic, ch: Channel, value: nat, clock: nat)
    requires Periodic(ch.mode) && value < 0x1_0000
    ensures Fresh(m, LoadCount(m, ch, value, clock))
  {
    var count := if value == 0 then 0x1_0000 else value;
    UpdateLoaded(m, ch.(count := count, load := clock), clock, false);
    StartsHigh(m, count);
    hide Ticks, Time, Out, NextTick;
  }

  /** No drift, no skip: with exact conversions the k-th wake-up after any load is scheduled at a time
      whose tick count is exactly the k-th boundary, for every k. */
  lemma {:induction false} NoDrift(ch: Channel, k: nat)
    requires Fresh(Exact, ch)
    ensures var w := Wakes(Exact, ch, k);
            && w.next == ch.load + Time(Exact, Boundary(ch.mode, ch.count, k + 1)) + 1
            && Ticks(Exact, w.next - ch.load) == Boundary(ch.mode, ch.count, k + 1)
  {
    hide Ticks, Time, Boundary, NextTick, DriveLine;
    BoundaryFollows(ch.mode, ch.count, k);
    if k == 0 {
      LoadTick(ch.mode, ch.count);
      ExactTransition(ch.mode, ch.count, ch.load, ch.load);
    } else {
      NoDrift(ch, k - 1);
      ExactTransition(ch.mode, ch.count, ch.load, Wakes(Exact, ch, k - 1).next);
    }
  }

  lemma LoadTick(mode: nat, count: nat)
    ensures Boundary(mode, count, 0) == 0 && Ticks(Exact, 0) == 0
  {
  }

  /** Every transition of the output is a boundary: none is skipped. */
  lemma TransitionsAreBoundaries(mode: nat, count: nat, t: nat) returns (k: nat)
    requires Periodic(mode) && count > 0 && (mode == 3 ==> count >= 2) && t > 0 && Transition(mode, count, t)
    ensures k > 0 && Boundary(mode, count, k) == t
  {
    var period := t / count;
    BaseAndPhase(count, t);
    if mode == 2 {
      k := period;
    } else {
      k := if Phase(count, t) == 0 then 2 * period else 2 * period + 1;
      assert k / 2 == period;
      SquareTransitionPhase(count, t);
    }
  }

  lemma SquareTransitionPhase(count: nat, t: nat)
    requires count >= 2 && t > 0 && Transition(3, count, t)
    ensures Phase(count, t) == 0 || Phase(count, t) == (count + 1) / 2
  {
    BaseAndPhase(count, t);
    if Phase(count, t) > 0 {
      SamePeriod(count, t, t - 1);
    }
    hide Base, Phase;
  }

  /** In the square-wave mode the output alternates from one boundary to the next. */
  lemma OutputAlternates(count: nat, k: nat)
    requires count >= 2
    ensures Out(3, count, Boundary(3, count, k)) <==> k % 2 == 0
  {
    BoundaryPhase(3, count, k);
  }

  /** A square wave of count 1 is always high. */
  lemma ShortestWaveIsFlat(tick: nat)
    ensures Out(3, 1, tick)
  {
  }

  /** What a wake-up does to the line of an enabled periodic channel. */
  ghost predicate LineFollows(before: Channel, after: Channel, tick: nat)
    requires before.count > 0
  {
    if before.mode == 2 then after.edges == before.edges + 1
    else
      var out := Out(3, before.count, tick);
      after.line == out && after.edges == before.edges + if out && !before.line then 1 else 0
  }

  lemma FireLine(ch: Channel, tick: nat)
    requires Loaded(ch) && ch.active && Periodic(ch.mode) && ch.enabled && Ticks(Exact, ch.next - ch.load) == tick
    ensures LineFollows(ch, Fire(Exact, ch), tick)
  {
    hide Ticks, Out, NextTransition;
  }

  lemma WakeLine(ch: Channel, k: nat)
    requires Fresh(Exact, ch) && ch.enabled && k > 0
    ensures LineFollows(Wakes(Exact, ch, k - 1), Wakes(Exact, ch, k), Boundary(ch.mode, ch.count, k))
  {
    NoDrift(ch, k - 1);
    hide Fire, Ticks, Time, Boundary, NextTransition, LineFollows;
    FireLine(Wakes(Exact, ch, k - 1), Boundary(ch.mode, ch.count, k));
  }

  /** One rising edge of IRQ 0 per period: each wake-up in mode 2, every second one in mode 3, and none for the
      square wave of count 1. */
  lemma {:induction false} EdgesPerPeriod(ch: Channel, k: nat)
    requires Fresh(Exact, ch) && ch.enabled
    ensures var w := Wakes(Exact, ch, k);
            if ch.mode == 2 then w.edges == ch.edges + k
            else if ch.count >= 2 then w.edges == ch.edges + k / 2 && (w.line <==> k % 2 == 0)
            else w.edges == ch.edges && w.line
  {
    if k > 0 {
      EdgesPerPeriod(ch, k - 1);
      WakeLine(ch, k);
      hide Wakes, Boundary, Out;
      if ch.mode == 3 && ch.count >= 2 {
        OutputAlternates(ch.count, k);
      } else if ch.mode == 3 {
        ShortestWaveIsFlat(Boundary(3, ch.count, k));
      }
    }
  }

  // ---------- the 32-bit conversion ----------

  /** Below 2^32 ns since the load, the source's conversion schedules what the exact one does. */
  lemma Low32TransitionBelow(ch: Channel, now: nat)
    requires Counting(ch) && ch.load <= now && now - ch.load < WORD
    ensures Ticks(Low32, now - ch.load) == Ticks(Exact, now - ch.load)
    ensures NextTransition(Low32, ch.mode, ch.count, ch.load, now)
            == NextTransition(Exact, ch.mode, ch.count, ch.load, now)
  {
    Low32Agrees(now - ch.load, FREQ, NANOSECONDS);
    var tick := Ticks(Exact, now - ch.load);
    assert tick < 0x50_0000;
    hide MulDiv, Ticks;
    NextTickBound(ch.mode, ch.count, tick);
    hide NextTick;
    var next := NextTick(ch.mode, ch.count, tick);
    if next >= 0 {
      Low32Agrees(next, NANOSECONDS, FREQ);
    }
  }

  lemma NextTickBound(mode: nat, count: nat, tick: nat)
    requires count > 0
    ensures NextTick(mode, count, tick) <= tick + count
    ensures Periodic(mode) ==> tick < NextTick(mode, count, tick)
  {
    BaseAndPhase(count, tick);
    hide Base, Phase;
  }

  /** From 2^32 ns on, the tick count has wrapped, the clamp takes over and the periodic modes
      schedule the very next nanosecond. */
  lemma Low32TransitionAbove(ch: Channel, now: nat)
    requires Counting(ch) && Periodic(ch.mode) && ch.load <= now && now - ch.load >= WORD
    ensures NextTransition(Low32, ch.mode, ch.count, ch.load, now) == now + 1
  {
    var elapsed := now - ch.load;
    var tick := Ticks(Low32, elapsed);
    NextTickBound(ch.mode, ch.count, tick);
    hide NextTick;
    WrappedTimeIsPast(elapsed, NextTick(ch.mode, ch.count, tick));
  }

  lemma WrappedTimeIsPast(elapsed: nat, next: nat)
    requires elapsed >= WORD && next <= Ticks(Low32, elapsed) + 0x1_0000
    ensures Time(Low32, next) <= elapsed
  {
    var r := elapsed % WORD;
    assert r <= elapsed - WORD;
    assert Ticks(Low32, elapsed) * NANOSECONDS <= r * FREQ;
    assert next * NANOSECONDS <= elapsed * FREQ;
    assert next < WORD;
    assert Time(Low32, next) == next * NANOSECONDS / FREQ;
  }

  /** The exact schedule falls on the very next nanosecond when the next boundary's tick begins within it. */
  lemma ExactIsNextIff(ch: Channel, now: nat)
    requires Counting(ch) && Periodic(ch.mode) && ch.load <= now
    ensures var e := now - ch.load;
            NextTransition(Exact, ch.mode, ch.count, ch.load, now) == now + 1
            <==> NextIsNow(ch, e)
  {
    var e := now - ch.load;
    var next := NextTick(ch.mode, ch.count, Ticks(Exact, e));
    NextTickBound(ch.mode, ch.count, Ticks(Exact, e));
    ExactTransition(ch.mode, ch.count, ch.load, now);
    hide NextTick, NextTransition, Ticks;
    TimeIsIff(next, e);
    TimeNotBefore(e, next);
  }

  lemma TimeIsIff(tick: nat, e: nat)
    ensures Time(Exact, tick) <= e <==> tick * NANOSECONDS < (e + 1) * FREQ
  {
  }

  /** When the next transition falls in the next nanosecond. */
  predicate NextIsNow(ch: Channel, e: nat)
    requires Counting(ch)
  {
    NextTick(ch.mode, ch.count, Ticks(Exact, e)) * NANOSECONDS < (e + 1) * FREQ
  }

  /** By then every one-shot mode is done; the wrapped tick count agrees if it is past the count too. */
  lemma Low32OneShotAbove(ch: Channel, now: nat)
    requires Counting(ch) && !Periodic(ch.mode) && ch.load <= now && now - ch.load >= WORD
    ensures NextTransition(Low32, ch.mode, ch.count, ch.load, now)
            == NextTransition(Exact, ch.mode, ch.count, ch.load, now)
            <==> Ticks(Low32, now - ch.load) >= ch.count
  {
    PastEveryCount(now - ch.load);
    hide Ticks, Time;
  }

  lemma PastEveryCount(e: nat)
    requires e >= WORD
    ensures Ticks(Exact, e) > 0x1_0000
  {
    assert e * FREQ >= WORD * FREQ;
  }

  /** So in the periodic modes the schedule is right exactly while less than 2^32 ns have passed since the load, or
      when the next boundary's tick begins within the next nanosecond; in the one-shot modes, while less than
      2^32 ns have passed, or when the wrapped tick count is past the count. */
  lemma Low32TransitionIff(ch: Channel, now: nat)
    requires Counting(ch) && ch.load <= now
    ensures var e := now - ch.load;
            NextTransition(Low32, ch.mode, ch.count, ch.load, now)
            == NextTransition(Exact, ch.mode, ch.count, ch.load, now)
            <==> || e < WORD
                 || (if Periodic(ch.mode) then NextIsNow(ch, e) else Ticks(Low32, e) >= ch.count)
  {
    if now - ch.load < WORD {
      Low32TransitionBelow(ch, now);
    } else if Periodic(ch.mode) {
      Low32TransitionAbove(ch, now);
      ExactIsNextIff(ch, now);
    } else {
      Low32OneShotAbove(ch, now);
    }
  }

  lemma {:induction false} WakesAdvance(m: Arithmetic, ch: Channel, j: nat, k: nat)
    requires Loaded(ch) && ch.active && Periodic(ch.mode) && j <= k
    ensures Wakes(m, ch, j).next <= Wakes(m, ch, k).next
    decreases k
  {
    if j < k {
      WakesAdvance(m, ch, j, k - 1);
      var w := Wakes(m, ch, k - 1);
      hide Ticks, Time, NextTick, Out;
      assert Wakes(m, ch, k) == Fire(m, w);
    }
  }

  /** The source's run is the exact run up to and including the first wake-up that is scheduled at or
      after 2^32 ns. */
  lemma {:induction false} Low32RunExact(ch: Channel, k: nat)
    requires Loaded(ch) && ch.active && Periodic(ch.mode)
    requires k > 0 ==> Wakes(Exact, ch, k - 1).next - ch.load < WORD
    ensures Wakes(Low32, ch, k) == Wakes(Exact, ch, k)
  {
    if k > 0 {
      if k > 1 { WakesAdvance(Exact, ch, k - 2, k - 1); }
      Low32RunExact(ch, k - 1);
      var w := Wakes(Exact, ch, k - 1);
      Low32FireExact(w);
      hide Fire, Loaded;
      assert Wakes(Low32, ch, k) == Fire(Low32, w) && Wakes(Exact, ch, k) == Fire(Exact, w);
    }
  }

  lemma Low32FireExact(ch: Channel)
    requires Loaded(ch) && ch.active && Periodic(ch.mode) && ch.next - ch.load < WORD
    ensures Fire(Low32, ch) == Fire(Exact, ch)
  {
    Low32TransitionBelow(ch, ch.next);
    hide Ticks, Time, NextTransition, Out;
  }

  /** Boundaries are at least a tick apart, so exact wake-ups are at least two nanoseconds apart. */
  lemma ExactWakesApart(ch: Channel, k: nat)
    requires Fresh(Exact, ch)
    ensures Wakes(Exact, ch, k + 1).next >= Wakes(Exact, ch, k).next + 2
  {
    NoDrift(ch, k);
    NoDrift(ch, k + 1);
    BoundaryFollows(ch.mode, ch.count, k + 1);
    hide Wakes, Boundary, Ticks, Fresh;
    TicksApart(Boundary(ch.mode, ch.count, k + 1), Boundary(ch.mode, ch.count, k + 2));
  }

  lemma TicksApart(a: nat, b: nat)
    requires a < b
    ensures Time(Exact, b) >= Time(Exact, a) + 2
  {
    var t := Time(Exact, a);
    assert t * FREQ <= a * NANOSECONDS;
    assert (t + 2) * FREQ <= b * NANOSECONDS;
    DivMonotone((t + 2) * FREQ, b * NANOSECONDS, FREQ);
    DivMod((t + 2) * FREQ, t + 2, FREQ, 0);
  }

  /** Every exact run gets as late as one likes. */
  lemma {:induction false} ExactWakesReach(ch: Channel, k: nat)
    requires Fresh(Exact, ch)
    ensures Wakes(Exact, ch, k).next >= ch.load + 2 * k
  {
    if k > 0 {
      ExactWakesReach(ch, k - 1);
      ExactWakesApart(ch, k - 1);
      hide Wakes, Fresh;
    }
  }

  lemma Low32FireNext(ch: Channel)
    requires Loaded(ch) && ch.active && Periodic(ch.mode) && ch.next - ch.load >= WORD
    ensures Fire(Low32, ch).next == ch.next + 1
  {
    Low32TransitionAbove(ch, ch.next);
    hide Ticks, Time, NextTransition;
  }

  /** Once an exact wake-up lies at or past 2^32 ns, the source's next ones are late enough too, but earlier than the
      exact ones. */
  lemma {:induction false} Low32RunBehind(ch: Channel, k: nat)
    requires Fresh(Exact, ch) && k > 0 && Wakes(Exact, ch, k - 1).next - ch.load >= WORD
    ensures WORD <= Wakes(Low32, ch, k).next - ch.load
    ensures Wakes(Low32, ch, k).next < Wakes(Exact, ch, k).next
  {
    var w := Wakes(Low32, ch, k - 1);
    if k > 1 && Wakes(Exact, ch, k - 2).next - ch.load >= WORD {
      Low32RunBehind(ch, k - 1);
    } else {
      Low32RunExact(ch, k - 1);
    }
    Low32FireNext(w);
    ExactWakesApart(ch, k - 1);
    hide Fire, Fresh;
  }

  /** The source's k-th wake-up is the exact one if and only if the one before lies below 2^32 ns after the load. */
  lemma Low32RunIff(ch: Channel, k: nat)
    requires Fresh(Exact, ch)
    ensures Wakes(Low32, ch, k) == Wakes(Exact, ch, k) <==> k == 0 || Wakes(Exact, ch, k - 1).next - ch.load < WORD
  {
    if k == 0 || Wakes(Exact, ch, k - 1).next - ch.load < WORD {
      Low32RunExact(ch, k);
    } else {
      Low32RunBehind(ch, k);
    }
  }

  /** After that every wake-up comes one nanosecond after the last. */
  lemma {:induction false} Low32RunStorms(ch: Channel, k: nat)
    requires Loaded(ch) && ch.active && Periodic(ch.mode) && ch.next - ch.load >= WORD
    ensures Wakes(Low32, ch, k).next == ch.next + k
  {
    if k > 0 {
      Low32RunStorms(ch, k - 1);
      Low32FireNext(Wakes(Low32, ch, k - 1));
      hide Fire;
    }
  }

  lemma {:induction false} WakesCompose(m: Arithmetic, ch: Channel, k: nat, j: nat)
    requires Loaded(ch) && ch.active && Periodic(ch.mode)
    ensures Wakes(m, ch, k + j) == Wakes(m, Wakes(m, ch, k), j)
    decreases j
  {
    if j > 0 {
      WakesCompose(m, ch, k, j - 1);
      hide Fire, Ticks, Time, NextTick, Out, NextTransition, Loaded;
      assert Wakes(m, ch, k + j) == Fire(m, Wakes(m, ch, k + j - 1));
    }
  }

  /** The first exact wake-up at or past 2^32 ns; every run has one. */
  lemma FirstLateWake(ch: Channel) returns (k: nat)
    requires Fresh(Exact, ch)
    ensures Wakes(Exact, ch, k).next - ch.load >= WORD
    ensures k > 0 ==> Wakes(Exact, ch, k - 1).next - ch.load < WORD
  {
    k := 0;
    hide Wakes, Fresh;
    ExactWakesReach(ch, 0);
    while Wakes(Exact, ch, k).next - ch.load < WORD
      invariant Wakes(Exact, ch, k).next >= ch.load + 2 * k
      invariant k > 0 ==> Wakes(Exact, ch, k - 1).next - ch.load < WORD
      decreases WORD - k
    {
      k := k + 1;
      ExactWakesReach(ch, k);
    }
  }

  /** Every periodic channel left running gets there: the source's run is the exact one up to some wake-up at or past
      2^32 ns, and from there on every wake-up is one nanosecond after the last. */
  lemma StormBegins(ch: Channel) returns (k: nat)
    requires Fresh(Exact, ch)
    ensures Wakes(Low32, ch, k) == Wakes(Exact, ch, k) && Wakes(Exact, ch, k).next - ch.load >= WORD
    ensures forall i | i >= k :: Wakes(Low32, ch, i).next == Wakes(Low32, ch, k).next + (i - k)
  {
    k := FirstLateWake(ch);
    Low32RunIff(ch, k);
    var w := Wakes(Low32, ch, k);
    hide Wakes, Fresh, Loaded;
    forall i | i >= k
      ensures Wakes(Low32, ch, i).next == w.next + (i - k)
    {
      WakesCompose(Low32, ch, k, i - k);
      Low32RunStorms(w, i - k);
    }
  }
}
