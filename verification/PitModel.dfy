/**
 The 8254 channel that drives IRQ 0: its output as a function of ticks, the transition it schedules
 next, and runs of its timer. Ticks (1193182 Hz) and nanoseconds convert by a truncating
 multiply-divide, which in the source keeps only the low 32 bits of its first operand.
 */
module PitModel {
  import opened Arith

  const FREQ := 1193182
  const NANOSECONDS := 1_000_000_000
  const WORD := 0x1_0000_0000

  datatype Arithmetic = Exact | Low32

  function MulDiv(m: Arithmetic, a: nat, b: nat, c: nat): nat
    requires c > 0
  {
    (if m.Exact? then a else a % WORD) * b / c
  }

  function Ticks(m: Arithmetic, elapsed: nat): nat { MulDiv(m, elapsed, FREQ, NANOSECONDS) }

  function Time(m: Arithmetic, tick: nat): nat { MulDiv(m, tick, NANOSECONDS, FREQ) }

  predicate ValidMode(mode: nat) { mode <= 5 }

  /** The start of the period a tick is in, and how far into it the tick is. */
  function Base(count: nat, tick: nat): nat
    requires count > 0
  {
    tick / count * count
  }

  function Phase(count: nat, tick: nat): nat
    requires count > 0
  {
    tick % count
  }

  /** The output bit at a tick after the load. */
  predicate Out(mode: nat, count: nat, tick: nat)
    requires count > 0
  {
    match mode
    case 1 => tick < count
    case 2 => Phase(count, tick) == 0 && tick != 0
    case 3 => Phase(count, tick) < (count + 1) / 2
    case 4 => tick == count
    case 5 => tick == count
    case _ => tick >= count
  }

  /** The tick scheduled next, or -1. */
  function NextTick(mode: nat, count: nat, tick: nat): int
    requires count > 0
  {
    match mode
    case 2 => Base(count, tick) + count
    case 3 =>
      var base := Base(count, tick);
      var half := (count + 1) / 2;
      if tick - base < half then base + half else base + count
    case _ => if tick < count then count else -1
  }

  /** The time of the next transition, or -1; one nanosecond is added against rounding. */
  function NextTransition(m: Arithmetic, mode: nat, count: nat, load: nat, now: nat): int
    requires count > 0 && load <= now
  {
    var next := NextTick(mode, count, Ticks(m, now - load));
    if next < 0 then -1
    else
      var t := load + Time(m, next);
      (if t <= now then now else t) + 1
  }

  // ---------- the next transition is the least one ----------

  /** What a wake-up is for: a level change, or in the pulse modes a high output. */
  predicate Transition(mode: nat, count: nat, tick: nat)
    requires count > 0
  {
    if mode in {2, 4, 5} then Out(mode, count, tick)
    else tick > 0 && Out(mode, count, tick) != Out(mode, count, tick - 1)
  }

  lemma BaseAndPhase(count: nat, tick: nat)
    requires count > 0
    ensures tick == Base(count, tick) + Phase(count, tick) && Phase(count, tick) < count
  {
  }

  /** Within a period the base stays and the phase counts up; at its end both start again. */
  lemma SamePeriod(count: nat, tick: nat, t: nat)
    requires count > 0 && Base(count, tick) <= t <= Base(count, tick) + count
    ensures t < Base(count, tick) + count ==>
              Base(count, t) == Base(count, tick) && Phase(count, t) == t - Base(count, tick)
    ensures t == Base(count, tick) + count ==> Base(count, t) == t && Phase(count, t) == 0
  {
    var period := tick / count;
    if t < Base(count, tick) + count {
      DivMod(t, period, count, t - Base(count, tick));
    } else {
      DivMod(t, period + 1, count, 0);
    }
  }

  lemma SquareWaveStep(count: nat, tick: nat, t: nat)
    requires count >= 2 && tick < t <= NextTick(3, count, tick)
    ensures Transition(3, count, t) <==> t == NextTick(3, count, tick)
  {
    BaseAndPhase(count, tick);
    SamePeriod(count, tick, t - 1);
    SamePeriod(count, tick, t);
    hide Base, Phase;
  }

  lemma RateStep(count: nat, tick: nat, t: nat)
    requires count > 0 && tick < t <= NextTick(2, count, tick)
    ensures Transition(2, count, t) <==> t == NextTick(2, count, tick)
  {
    BaseAndPhase(count, tick);
    SamePeriod(count, tick, t);
    hide Base, Phase;
  }

  /** The scheduled tick is the least later transition, and -1 is returned exactly when there is none.
      A square wave of count 1 never changes, so it is excluded. */
  lemma NextTickIsLeast(mode: nat, count: nat, tick: nat)
    requires ValidMode(mode) && count > 0 && (mode == 3 ==> count >= 2)
    ensures var next := NextTick(mode, count, tick);
            if next == -1 then forall t: nat | t > tick :: !Transition(mode, count, t)
            else next > tick && forall t: nat | tick < t <= next :: Transition(mode, count, t) <==> t == next
  {
    var next := NextTick(mode, count, tick);
    if mode == 3 {
      BaseAndPhase(count, tick);
      forall t: nat | tick < t <= next ensures Transition(mode, count, t) <==> t == next {
        SquareWaveStep(count, tick, t);
      }
    } else if mode == 2 {
      BaseAndPhase(count, tick);
      forall t: nat | tick < t <= next ensures Transition(mode, count, t) <==> t == next {
        RateStep(count, tick, t);
      }
    }
  }

  // ---------- conversions ----------

  /** A tick's time, plus the nanosecond, converts back to the same tick. */
  lemma RoundTrip(tick: nat)
    ensures Ticks(Exact, Time(Exact, tick) + 1) == tick
  {
    var t := Time(Exact, tick);
    assert t * FREQ <= tick * NANOSECONDS < (t + 1) * FREQ;
    DivMod((t + 1) * FREQ, tick, NANOSECONDS, (t + 1) * FREQ - tick * NANOSECONDS);
  }

  /** A later tick's time is not before now. */
  lemma TimeNotBefore(elapsed: nat, tick: nat)
    requires Ticks(Exact, elapsed) < tick
    ensures elapsed <= Time(Exact, tick)
  {
  }

  /** With exact conversions the clamp never changes the result, which lies after now and falls on
      the scheduled tick. */
  lemma ExactTransition(mode: nat, count: nat, load: nat, now: nat)
    requires ValidMode(mode) && count > 0 && load <= now
    ensures var next := NextTick(mode, count, Ticks(Exact, now - load));
            var t := NextTransition(Exact, mode, count, load, now);
            if next == -1 then t == -1
            else next > 0 && t == load + Time(Exact, next) + 1 && t > now && Ticks(Exact, t - load) == next
  {
    var tick := Ticks(Exact, now - load);
    var next := NextTick(mode, count, tick);
    if next != -1 {
      BaseAndPhase(count, tick);
      TimeNotBefore(now - load, next);
      RoundTrip(next);
    }
  }

  lemma Low32Agrees(a: nat, b: nat, c: nat)
    requires c > 0
    ensures a < WORD ==> MulDiv(Low32, a, b, c) == MulDiv(Exact, a, b, c)
  {
  }

  /** The 32-bit conversion is right exactly below 2^32, for operands whose full word is worth a unit. */
  lemma MulDivIff(a: nat, b: nat, c: nat)
    requires 0 < c <= WORD * b
    ensures MulDiv(Low32, a, b, c) == MulDiv(Exact, a, b, c) <==> a < WORD
  {
    if a >= WORD {
      var (q, r) := (a / WORD, a % WORD);
      assert a == q * WORD + r && q >= 1;
      assert a * b == r * b + q * (WORD * b);
      MulMonotone(1, q, WORD * b);
      assert a * b >= r * b + c;
      DivMonotone(r * b + c, a * b, c);
      DivMod(r * b + c, r * b / c + 1, c, r * b % c);
    }
  }
}
