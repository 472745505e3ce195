/**
 Runs of the 8259 pair that show a condition is needed, and the states an initialisation leaves.
 */
module PicWitness {
  import opened PicModel
  import opened PicRuns

  // ----- lines acknowledged again

  /** The first step of a run, and what it acknowledges. */
  lemma Cons(s: State, e: Event, es: seq<Event>)
    requires Enabled(s, e)
    ensures RunEnabled(s, [e] + es) <==> RunEnabled(Step(s, e), es)
    ensures Acks(s, [e] + es, true) == Taken(s, e, true) + Acks(Step(s, e), es, true)
  {
    assert ([e] + es)[1..] == es;
  }

  /** The initial state, with these lines of the slave level-triggered. */
  function WithLevels(levels: set<nat>): State {
    INITIAL.(slave := INITIAL.slave.(edgeLevel := levels))
  }

  /** Both chips unmasked, and nothing raised. */
  function Unmasked(levels: set<nat>): State {
    var s := WithLevels(levels);
    State(s.master.(mask := {}), s.slave.(mask := {}), false)
  }

  /** Line irq of the slave is passed on to the processor. */
  function PassedOn(levels: set<nat>, irq: nat): State {
    var s := Unmasked(levels);
    State(Select(Assert(s.master, CASCADE), CASCADE), Select(Assert(s.slave, irq), irq), true)
  }

  /** It is in service, and as a level-triggered line still requested. */
  function InService(levels: set<nat>, irq: nat): State {
    var s := PassedOn(levels, irq);
    State(s.master.(raised := false, pin := {}, request := {}), Accept(s.slave), false)
  }

  lemma ScanOnly(c: Chip, irq: nat)
    requires forall e: nat :: Eligible(c, e) <==> e == irq
    ensures Scan(c, 0) == irq
  {
    assert Eligible(c, irq);
  }

  lemma ScanNone(c: Chip)
    requires forall e: nat :: !Eligible(c, e)
    ensures Scan(c, 0) == c.priority + 1
  {
  }

  lemma UnmaskSteps(levels: set<nat>)
    ensures Step(Step(WithLevels(levels), WriteMask(false, {})), WriteMask(true, {})) == Unmasked(levels)
  {
    var s := WithLevels(levels);
    var t := s.(master := s.master.(mask := {}));
    ScanNone(t.master);
    assert Step(s, WriteMask(false, {})) == t;
    ScanNone(t.slave.(mask := {}));
  }

  /** The slave's one request reaches the processor. */
  lemma ServicePasses(s: State, irq: nat)
    requires irq < LINES && s.master == Unmasked({}).master.(selected := s.master.selected) && s.master.pin == {}
    requires forall e: nat :: Eligible(s.slave, e) <==> e == irq
    ensures ServiceSlave(s) == State(Select(Assert(s.master, CASCADE), CASCADE), Select(s.slave, irq), true)
  {
    assert Eligible(s.slave, irq);
    ScanOnly(s.slave, irq);
    var t := State(Assert(s.master, CASCADE), Select(s.slave, irq), s.event);
    ScanOnly(t.master, CASCADE);
    assert ServiceMaster(t) == State(Select(t.master, CASCADE), t.slave, true);
  }

  lemma RaiseStep(levels: set<nat>, irq: nat)
    requires irq < LINES
    ensures Step(Unmasked(levels), RaiseIrq(LINES + irq)) == PassedOn(levels, irq)
  {
    var s := Unmasked(levels);
    ServicePasses(s.(slave := Assert(s.slave, irq)), irq);
  }

  lemma IacStep(levels: set<nat>, irq: nat)
    requires irq < LINES && irq in levels
    ensures Step(PassedOn(levels, irq), Iac) == InService(levels, irq)
    ensures Taken(PassedOn(levels, irq), Iac, true) == [irq]
  {
    var r := InService(levels, irq);
    ScanNone(r.slave);
    ScanNone(r.master);
  }

  /** The end of interrupt passes the same request on again. */
  lemma EoiStep(levels: set<nat>, irq: nat)
    requires irq < LINES && irq in levels
    ensures Step(InService(levels, irq), Eoi(true)) == PassedOn(levels, irq)
  {
    var s := InService(levels, irq);
    var c := Retire(s.slave);
    assert InServiceBelow(s.slave, irq) == irq;
    assert c == Assert(Unmasked(levels).slave, irq).(selected := irq);
    ServicePasses(s.(slave := c), irq);
  }

  function Cycle(n: nat): seq<Event> {
    if n == 0 then [] else [Iac] + ([Eoi(true)] + Cycle(n - 1))
  }

  function Times(irq: nat, n: nat): (r: seq<nat>)
    ensures |r| == n && forall k | 0 <= k < n :: r[k] == irq
  {
    seq(n, _ => irq)
  }

  lemma OneMore(irq: nat, n: nat)
    ensures [irq] + Times(irq, n) == Times(irq, n + 1)
  {
  }

  lemma NothingTaken(s: State, slave: bool)
    ensures Taken(s, Eoi(slave), true) == []
  {
  }

  lemma {:induction false} CycleAcks(levels: set<nat>, irq: nat, n: nat)
    requires irq < LINES && irq in levels
    ensures RunEnabled(PassedOn(levels, irq), Cycle(n)) && Acks(PassedOn(levels, irq), Cycle(n), true) == Times(irq, n)
  {
    if n > 0 {
      hide Step, InService, Taken, Times;
      assert Enabled(PassedOn(levels, irq), Iac) && Enabled(InService(levels, irq), Eoi(true));
      assert Taken(InService(levels, irq), Eoi(true), true) == [] by { NothingTaken(InService(levels, irq), true); }
      hide PassedOn;
      IacStep(levels, irq);
      EoiStep(levels, irq);
      CycleAcks(levels, irq, n - 1);
      Cons(InService(levels, irq), Eoi(true), Cycle(n - 1));
      Cons(PassedOn(levels, irq), Iac, [Eoi(true)] + Cycle(n - 1));
      OneMore(irq, n - 1);
    }
  }

  /** From the initial state a level-triggered slave line, raised once, is acknowledged any number of times. */
  lemma LevelLineRepeats(levels: set<nat>, irq: nat, n: nat) returns (es: seq<Event>)
    requires Register(levels) && irq < LINES && irq in levels
    ensures Sound(WithLevels(levels)) && RunEnabled(WithLevels(levels), es)
    ensures Acks(WithLevels(levels), es, true) == Times(irq, n)
  {
    var s := WithLevels(levels);
    UnmaskSteps(levels);
    RaiseStep(levels, irq);
    CycleAcks(levels, irq, n);
    var e2 := [RaiseIrq(LINES + irq)] + Cycle(n);
    var e1 := [WriteMask(true, {})] + e2;
    es := [WriteMask(false, {})] + e1;
    Cons(Unmasked(levels), RaiseIrq(LINES + irq), Cycle(n));
    Cons(Step(s, WriteMask(false, {})), WriteMask(true, {}), e2);
    Cons(s, WriteMask(false, {}), e1);
  }

  /** Some run acknowledges the line twice. */
  ghost predicate Repeatable(levels: set<nat>, irq: nat) {
    exists s: State, es: seq<Event> ::
      Sound(s) && RunEnabled(s, es) && s.slave.edgeLevel == levels && !AtMostOnce(Acks(s, es, true), irq)
  }

  /** The slave lines that can be acknowledged more than once are exactly the level-triggered ones. */
  lemma SlaveLineRepeatsIff(levels: set<nat>, irq: nat)
    requires Register(levels) && irq < LINES
    ensures Repeatable(levels, irq) <==> irq in levels
  {
    if irq in levels {
      var es := LevelLineRepeats(levels, irq, 2);
      var a := Acks(WithLevels(levels), es, true);
      assert a[0] == irq && a[1] == irq;
      assert !AtMostOnce(a, irq);
    } else if Repeatable(levels, irq) {
      var s: State, es: seq<Event> :|
        Sound(s) && RunEnabled(s, es) && s.slave.edgeLevel == levels && !AtMostOnce(Acks(s, es, true), irq);
      SlaveLineOnce(s, es, irq);
      assert false;
    }
  }

  // ----- after the initialisation words

  /** Both chips after PicInitialize and the four initialisation words, nothing masked; the lines of devices
      raised meanwhile are requested, but no service has run. */
  function AfterInitWords(masterLines: set<nat>, slaveLines: set<nat>): State {
    var (m, s) := (INITIAL.master, INITIAL.slave);
    State(m.(mask := {}, pin := masterLines, request := masterLines),
          s.(mask := {}, pin := slaveLines, request := slaveLines), false)
  }

  /** Such a state may have requests without an event. The two mask writes that follow pass them on. */
  lemma MaskWritesSettle(s: State, slaveMask: set<nat>, masterMask: set<nat>)
    requires Coherent(s) && Register(slaveMask) && Register(masterMask)
    ensures Sound(SetMask(SetMask(s, true, slaveMask), false, masterMask))
    ensures Sound(SetMask(SetMask(s, false, masterMask), true, slaveMask))
  {
    SlaveMaskServes(s, slaveMask);
    MasterMaskServes(SetMask(s, true, slaveMask), masterMask);
    MasterMaskServes(s, masterMask);
    SlaveMaskServes(SetMask(s, false, masterMask), slaveMask);
  }

  lemma SlaveMaskServes(s: State, mask: set<nat>)
    requires Coherent(s) && Register(mask)
    ensures var r := SetMask(s, true, mask); Coherent(r) && SlaveServed(r) && (MasterServed(s) ==> MasterServed(r))
  {
    ServiceSlaveSound(s.(slave := s.slave.(mask := mask)));
  }

  lemma MasterMaskServes(s: State, mask: set<nat>)
    requires Coherent(s) && Register(mask)
    ensures var r := SetMask(s, false, mask); Coherent(r) && MasterServed(r) && (SlaveServed(s) ==> SlaveServed(r))
  {
    ServiceMasterSound(s.(master := s.master.(mask := mask)));
  }

  lemma InitWordsThenMasks(masterLines: set<nat>, slaveLines: set<nat>, masterMask: set<nat>, slaveMask: set<nat>)
    requires Register(masterLines) && CASCADE !in masterLines && Register(slaveLines)
    requires Register(masterMask) && Register(slaveMask)
    ensures var s := AfterInitWords(masterLines, slaveLines);
            && Coherent(s) && Nested(s.master) && Nested(s.slave)
            && (Sound(s) <==> masterLines == {} && slaveLines == {})
            && Sound(SetMask(SetMask(s, false, masterMask), true, slaveMask))
  {
    var s := AfterInitWords(masterLines, slaveLines);
    MaskWritesSettle(s, slaveMask, masterMask);
    if e :| e in masterLines {
      assert Eligible(s.master, e);
    } else if e :| e in slaveLines {
      assert Eligible(s.slave, e);
    }
  }

  // ----- who gets the window after an acknowledge

  /** The line taken in service was the most urgent one, so nothing above it waits. */
  lemma NothingAbove(c: Chip)
    requires Selectable(c) && Served(c)
    ensures forall e: nat :: !Eligible(Accept(c), e)
  {
    forall e: nat
      ensures !Eligible(Accept(c), e)
    {
      if e < c.selected {
        assert !Eligible(c, e);
      }
    }
  }

  /** An acknowledge asks for the window again if and only if it took a slave line and the master has another
      line waiting. */
  lemma AsksAgainIff(s: State)
    requires Sound(s) && s.event
    ensures Acknowledge(s).event
            <==> s.master.selected == CASCADE && exists e :: e != CASCADE && Eligible(s.master, e)
  {
    if s.master.selected != CASCADE {
      NothingAbove(s.master);
      ScanNone(Accept(s.master));
    } else {
      var m := s.master;
      var passed := m.(raised := false, pin := m.pin - {CASCADE}, request := m.request - {CASCADE});
      NothingAbove(s.slave);
      ScanNone(Accept(s.slave));
      assert forall e: nat :: Eligible(passed, e) <==> e != CASCADE && Eligible(m, e);
      var t := ServiceSlave(State(passed, Accept(s.slave), false));
      assert t.master == passed && !t.event;
      if e :| e != CASCADE && Eligible(m, e) {
        assert Eligible(passed, e);
      } else {
        ScanNone(passed);
      }
    }
  }
}
