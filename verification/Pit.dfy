/**
 The PIT channel in its own form: one object updated by loads and timer wake-ups, with the 32-bit
 conversion the source uses.
 */
module Pit {
  import opened PitModel
  import opened PitRuns

  class Timer8254 {
    var mode: nat
    var count: nat
    var countLoadTime: nat
    var nextTransitionTime: int
    var timerActive: bool
    var interruptEnabled: bool
    var irqLine: bool
    ghost var edges: nat

    ghost function State(): Channel
      reads this
    {
      Channel(mode, count, countLoadTime, nextTransitionTime, timerActive, interruptEnabled, irqLine, edges)
    }

    method RaiseIrq()
      modifies this`irqLine, this`edges
      ensures State() == RaiseLine(old(State()))
    {
      if !irqLine {
        irqLine := true;
        edges := edges + 1;
      }
    }

    method LowerIrq()
      modifies this`irqLine
      ensures State() == LowerLine(old(State()))
    {
      irqLine := false;
    }

    method GetNextTransitionTime(currentTime: nat) returns (r: int)
      requires Counting(State()) && countLoadTime <= currentTime
      ensures r == NextTransition(Low32, mode, count, countLoadTime, currentTime)
    {
      var result := Ticks(Low32, currentTime - countLoadTime);
      var nextTime;
      match mode {
        case 2 =>
          var base := result / count * count;
          nextTime := base + count;
        case 3 =>
          var base := result / count * count;
          var period2 := (count + 1) / 2;
          if result - base < period2 {
            nextTime := base + period2;
          } else {
            nextTime := base + count;
          }
        case _ =>
          if result < count {
            nextTime := count;
          } else {
            return -1;
          }
      }
      assert nextTime == NextTick(mode, count, result);
      hide NextTick, Ticks, Time;
      nextTime := countLoadTime + Time(Low32, nextTime);
      if nextTime <= currentTime {
        nextTime := currentTime;
      }
      return nextTime + 1;
    }

    method IrqTimerUpdate(currentTime: nat, timer: bool)
      requires Counting(State()) && countLoadTime <= currentTime
      modifies this
      ensures State() == Update(Low32, old(State()), currentTime, timer) && Loaded(State())
    {
      UpdateLoaded(Low32, State(), currentTime, timer);
      hide NextTransition, Ticks, Out;
      var expireTime := GetNextTransitionTime(currentTime);
      var irqLevel := Out(mode, count, Ticks(Low32, currentTime - countLoadTime));
      if mode == 2 || mode == 4 || mode == 5 {
        if timer && interruptEnabled {
          LowerIrq();
          RaiseIrq();
        }
      } else if interruptEnabled {
        if irqLevel {
          RaiseIrq();
        } else {
          LowerIrq();
        }
      }
      nextTransitionTime := expireTime;
      timerActive := expireTime != -1;
    }

    /** The timer fires at the time it was set for. */
    method TimerHandler()
      requires Loaded(State()) && timerActive
      modifies this
      ensures State() == Fire(Low32, old(State())) && Loaded(State())
    {
      IrqTimerUpdate(nextTransitionTime, true);
    }

    method LoadCount(value: nat, clockNs: nat)
      requires ValidMode(mode) && value < 0x1_0000
      modifies this
      ensures State() == PitRuns.LoadCount(Low32, old(State()), value, clockNs) && Loaded(State())
    {
      count := if value == 0 then 0x1_0000 else value;
      countLoadTime := clockNs;
      IrqTimerUpdate(countLoadTime, false);
    }
  }
}
