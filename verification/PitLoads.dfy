/**
 From the count the guest writes to the interrupts it gets: the times of all wake-ups after a load, in ticks of
 1193182 Hz and in nanoseconds, and what the one-shot modes do with the line.
 */
module PitLoads {
  import opened PitModel
  import opened PitRuns

  /** A count of zero means 65536. */
  predicate Programs(value: nat, count: nat) {
    if value == 0 then count == 65536 else count == value
  }

  /** The tick of the k-th change after a load: every count ticks in mode 2, every half count in mode 3, where the
      high half is the longer one when the count is odd. A square wave of count 1 has no halves. */
  predicate FallsAt(mode: nat, count: nat, k: nat, tick: nat) {
    if mode == 2 || count == 1 then tick == k * count
    else 2 * tick == k * count + if k % 2 == 1 && count % 2 == 1 then 1 else 0
  }

  lemma BoundaryFalls(mode: nat, count: nat, k: nat)
    requires Periodic(mode) && count > 0
    ensures FallsAt(mode, count, k, Boundary(mode, count, k))
  {
    if mode == 3 && count >= 2 {
      HalfCounts(count, k);
    }
  }

  lemma HalfCounts(count: nat, k: nat)
    ensures 2 * (k / 2 * count + k % 2 * ((count + 1) / 2)) == k * count + if k % 2 == 1 && count % 2 == 1 then 1 else 0
  {
    var (i, h) := (k / 2, (count + 1) / 2);
    if k % 2 == 0 {
      assert k * count == 2 * (i * count);
    } else {
      assert k == 2 * i + 1;
      assert k * count == 2 * (i * count) + count;
      assert k % 2 * h == h;
    }
  }

  lemma LoadProgram(m: Arithmetic, ch: Channel, value: nat, clock: nat)
    requires Periodic(ch.mode) && value < 0x1_0000
    ensures var r := LoadCount(m, ch, value, clock);
            Programs(value, r.count) && r.load == clock && r.mode == ch.mode && r.enabled == ch.enabled
  {
    hide NextTransition, Out, Ticks;
  }

  /** At the load itself nothing has passed, so both conversions load the same. */
  lemma LoadAgrees(ch: Channel, value: nat, clock: nat)
    requires Periodic(ch.mode) && value < 0x1_0000
    ensures LoadCount(Low32, ch, value, clock) == LoadCount(Exact, ch, value, clock)
  {
    var count := if value == 0 then 0x1_0000 else value;
    Low32TransitionBelow(ch.(count := count, load := clock), clock);
    assert Ticks(Low32, 0) == Ticks(Exact, 0);
    hide NextTransition, Out, Ticks;
  }

  /** With exact conversions, the k-th wake-up after a load is due in the tick of the (k + 1)-st change of the count
      written, one nanosecond after that tick begins, rounded down: no load is ever off, however long it runs. */
  lemma LoadSchedules(ch: Channel, value: nat, clock: nat, k: nat) returns (tick: nat)
    requires Periodic(ch.mode) && value < 0x1_0000
    ensures var r := LoadCount(Exact, ch, value, clock);
            && Fresh(Exact, r) && Programs(value, r.count) && r.load == clock
            && FallsAt(ch.mode, r.count, k + 1, tick)
            && Wakes(Exact, r, k).next == clock + tick * 1_000_000_000 / 1193182 + 1
            && (Wakes(Exact, r, k).next - clock) * 1193182 / 1_000_000_000 == tick
  {
    var r := LoadCount(Exact, ch, value, clock);
    LoadProgram(Exact, ch, value, clock);
    LoadIsFresh(Exact, ch, value, clock);
    NoDrift(r, k);
    tick := Boundary(r.mode, r.count, k + 1);
    BoundaryFalls(r.mode, r.count, k + 1);
    hide Boundary, LoadCount, Wakes, Fresh, FallsAt;
  }

  /** The source schedules the same wake-up if and only if the one before lies less than 2^32 ns after the load. */
  lemma SourceSchedules(ch: Channel, value: nat, clock: nat, k: nat) returns (tick: nat)
    requires Periodic(ch.mode) && value < 0x1_0000
    ensures var (r, s) := (LoadCount(Exact, ch, value, clock), LoadCount(Low32, ch, value, clock));
            && Fresh(Exact, r) && Fresh(Low32, s) && Programs(value, s.count) && s.load == clock
            && FallsAt(ch.mode, s.count, k + 1, tick)
            && (Wakes(Low32, s, k).next == clock + tick * 1_000_000_000 / 1193182 + 1
                <==> k == 0 || Wakes(Exact, r, k - 1).next - clock < 0x1_0000_0000)
  {
    tick := LoadSchedules(ch, value, clock, k);
    LoadAgrees(ch, value, clock);
    LoadIsFresh(Low32, ch, value, clock);
    var r := LoadCount(Exact, ch, value, clock);
    hide LoadCount, Wakes, Fresh, FallsAt;
    Low32RunIff(r, k);
    if k > 0 && Wakes(Exact, r, k - 1).next - clock >= 0x1_0000_0000 {
      Low32RunBehind(r, k);
    }
  }

  // ----- one-shot modes

  predicate OneShot(mode: nat) {
    mode in {0, 1, 4, 5}
  }

  lemma ShortTicks(m: Arithmetic, count: nat)
    requires 0 < count <= 0x1_0000
    ensures Ticks(m, 0) == 0 && Time(m, count) == count * 1_000_000_000 / 1193182 < WORD - 1
    ensures Ticks(m, Time(m, count) + 1) == count
  {
    RoundTrip(count);
    var t := count * 1_000_000_000 / 1193182;
    assert count * 1_000_000_000 <= 0x1_0000 * 1_000_000_000;
    assert t < WORD - 1;
    Low32Agrees(count, NANOSECONDS, FREQ);
    Low32Agrees(t + 1, FREQ, NANOSECONDS);
    Low32Agrees(0, FREQ, NANOSECONDS);
  }

  /** The channel after a load, before anything fires. */
  lemma OneShotLoad(m: Arithmetic, ch: Channel, value: nat, clock: nat)
    requires OneShot(ch.mode) && value < 0x1_0000
    ensures var r := LoadCount(m, ch, value, clock);
            && Loaded(r) && Programs(value, r.count) && r.load == clock && r.mode == ch.mode && r.enabled == ch.enabled
            && r.active && r.next == clock + r.count * 1_000_000_000 / 1193182 + 1
            && (if !ch.enabled || ch.mode >= 4 then r.line == ch.line && r.edges == ch.edges
                else if ch.mode == 0 then !r.line && r.edges == ch.edges
                else r.line && r.edges == ch.edges + if ch.line then 0 else 1)
  {
    var count := if value == 0 then 0x1_0000 else value;
    ShortTicks(m, count);
    hide Ticks, Time;
  }

  /** And after its only wake-up. */
  lemma OneShotFires(m: Arithmetic, r: Channel)
    requires OneShot(r.mode) && Loaded(r) && r.active && r.next == r.load + r.count * 1_000_000_000 / 1193182 + 1
    ensures var f := Fire(m, r);
            && !f.active && f.next == -1
            && (if !r.enabled then f.line == r.line && f.edges == r.edges
                else if r.mode == 1 then !f.line && f.edges == r.edges
                else if r.mode == 0 then f.line && f.edges == r.edges + if r.line then 0 else 1
                else f.line && f.edges == r.edges + 1)
  {
    ShortTicks(m, r.count);
    hide Ticks, Time;
  }

  /** A one-shot load fires once, in the tick of the count written, with either conversion. In mode 0 the line is low
      until then and high from then on; in mode 1 the other way round; in modes 4 and 5 it rises then. So with
      interrupts enabled each is one interrupt, when the count ends, or in mode 1 when it starts. */
  lemma OneShotInterrupts(m: Arithmetic, ch: Channel, value: nat, clock: nat)
    requires OneShot(ch.mode) && value < 0x1_0000 && ch.enabled
    ensures var r := LoadCount(m, ch, value, clock);
            && Loaded(r) && r.active && Programs(value, r.count)
            && r.next == clock + r.count * 1_000_000_000 / 1193182 + 1
            && var f := Fire(m, r);
               && !f.active
               && (ch.mode == 0 ==> !r.line && f.line && r.edges == ch.edges && f.edges == ch.edges + 1)
               && (ch.mode == 1 && !ch.line ==> r.line && !f.line && r.edges == f.edges == ch.edges + 1)
               && (ch.mode >= 4 ==> r.line == ch.line && f.line && r.edges == ch.edges && f.edges == ch.edges + 1)
  {
    OneShotLoad(m, ch, value, clock);
    hide LoadCount, Fire;
    OneShotFires(m, LoadCount(m, ch, value, clock));
  }

  /** With interrupts disabled, no wake-up of a periodic channel touches the line. */
  lemma {:induction false} DisabledIsSilent(m: Arithmetic, ch: Channel, k: nat)
    requires Loaded(ch) && ch.active && Periodic(ch.mode) && !ch.enabled
    ensures Wakes(m, ch, k).line == ch.line && Wakes(m, ch, k).edges == ch.edges
  {
    if k > 0 {
      DisabledIsSilent(m, ch, k - 1);
      hide NextTransition, Out, Ticks;
    }
  }
}
