/**
 What every run of the 8259 pair keeps: urgency, nesting, and what the end of interrupt does to both.
 */
module PicRuns {
  import opened PicModel

  lemma InitialSound()
    ensures Sound(INITIAL) && Nested(INITIAL.master) && Nested(INITIAL.slave)
  {
  }

  lemma ScanFindsLeast(c: Chip, e: nat)
    requires Eligible(c, e)
    ensures Scan(c, 0) <= e
  {
  }

  /** Servicing the master selects its most urgent request and leaves the rest alone. */
  lemma ServiceMasterSound(s: State)
    requires Coherent(s)
    ensures var r := ServiceMaster(s); Coherent(r) && MasterServed(r) && r.slave == s.slave
    ensures ServiceMaster(s).master.(selected := s.master.selected, raised := s.master.raised) == s.master
    ensures SlaveServed(s) ==> SlaveServed(ServiceMaster(s))
  {
    var r := ServiceMaster(s);
    forall e | Eligible(r.master, e)
      ensures r.event && r.master.selected <= e
    {
      assert Eligible(s.master, e);
      ScanFindsLeast(s.master, e);
    }
  }

  /** Servicing the slave passes its most urgent request on to the cascade line. */
  lemma ServiceSlaveSound(s: State)
    requires Coherent(s)
    ensures var r := ServiceSlave(s); Coherent(r) && SlaveServed(r) && (MasterServed(s) ==> MasterServed(r))
    ensures ServiceSlave(s).slave.(selected := s.slave.selected, raised := s.slave.raised) == s.slave
    ensures ServiceSlave(s).master.inService == s.master.inService
    ensures ServiceSlave(s).master.priority == s.master.priority
  {
    var irq := Scan(s.slave, 0);
    var t := s.(slave := Select(s.slave, irq));
    forall e: nat | Eligible(t.slave, e)
      ensures irq <= e && Eligible(s.slave, e)
    {
      assert Eligible(s.slave, e);
      ScanFindsLeast(s.slave, e);
    }
    if irq <= s.slave.priority && CASCADE !in s.master.pin {
      var u := t.(master := Assert(t.master, CASCADE));
      assert Coherent(u);
      ServiceMasterSound(u);
    } else if irq <= s.slave.priority {
      assert Coherent(t) && SlaveServed(t);
    } else {
      assert forall e: nat :: Eligible(s.slave, e) ==> Eligible(t.slave, e);
    }
  }

  lemma RaiseMasterSound(s: State, irq: nat)
    requires Sound(s) && irq < LINES && irq != CASCADE
    ensures var r := RaiseMaster(s, irq); Sound(r) && r.slave == s.slave
    ensures var m := RaiseMaster(s, irq).master; m.inService == s.master.inService && m.priority == s.master.priority
  {
    if irq !in s.master.pin {
      var t := s.(master := Assert(s.master, irq));
      assert Coherent(t) && SlaveServed(t);
      ServiceMasterSound(t);
    }
  }

  lemma RaiseSound(s: State, n: nat)
    requires Sound(s) && n != CASCADE
    ensures var r := Raise(s, n);
            && Sound(r) && r.master.inService == s.master.inService && r.master.priority == s.master.priority
            && r.slave.inService == s.slave.inService && r.slave.priority == s.slave.priority
  {
    if n < LINES {
      RaiseMasterSound(s, n);
    } else if n <= 15 && n - LINES !in s.slave.pin {
      var t := s.(slave := Assert(s.slave, n - LINES));
      assert Coherent(t) && MasterServed(t);
      ServiceSlaveSound(t);
    }
  }

  lemma LowerSound(s: State, n: nat)
    requires Sound(s) && n != CASCADE
    ensures var r := Lower(s, n);
            && Sound(r) && r.master.inService == s.master.inService && r.master.priority == s.master.priority
            && r.slave == s.slave
  {
    var r := Lower(s, n);
    assert forall e: nat :: Eligible(r.master, e) ==> Eligible(s.master, e);
  }

  lemma MaskSound(s: State, slave: bool, mask: set<nat>)
    requires Sound(s) && Register(mask)
    ensures var r := SetMask(s, slave, mask);
            && Sound(r) && r.master.inService == s.master.inService && r.master.priority == s.master.priority
            && r.slave.inService == s.slave.inService && r.slave.priority == s.slave.priority
  {
    if slave {
      ServiceSlaveSound(s.(slave := s.slave.(mask := mask)));
    } else {
      ServiceMasterSound(s.(master := s.master.(mask := mask)));
    }
  }

  lemma EoiSound(s: State, slave: bool)
    requires Sound(s)
    ensures Sound(EndOfInterrupt(s, slave))
    ensures var r := EndOfInterrupt(s, slave);
            && r.master.inService == (if slave then s.master else Retire(s.master)).inService
            && r.master.priority == (if slave then s.master else Retire(s.master)).priority
            && r.slave.inService == (if slave then Retire(s.slave) else s.slave).inService
            && r.slave.priority == (if slave then Retire(s.slave) else s.slave).priority
  {
    if slave {
      ServiceSlaveSound(s.(slave := Retire(s.slave)));
    } else {
      ServiceMasterSound(s.(master := Retire(s.master)));
    }
  }

  /** An acknowledge takes in service exactly one line, the selected one; it was not in service, and no eligible
      request of its chip is more urgent. */
  lemma AcknowledgePushes(s: State)
    requires Sound(s) && s.event
    ensures var r := Acknowledge(s);
            && Sound(r)
            && if s.master.selected != CASCADE then
                 && s.master.selected !in s.master.inService && s.master.selected <= s.master.priority
                 && r.master.inService == s.master.inService + {s.master.selected}
                 && r.master.priority == s.master.selected
                 && r.slave == s.slave
                 && forall e | Eligible(s.master, e) :: s.master.selected <= e
               else
                 && s.slave.selected !in s.slave.inService && s.slave.selected <= s.slave.priority
                 && r.slave.inService == s.slave.inService + {s.slave.selected} && r.slave.priority == s.slave.selected
                 && r.master.inService == s.master.inService && r.master.priority == s.master.priority
                 && forall e | Eligible(s.slave, e) :: s.slave.selected <= e
  {
    if s.master.selected != CASCADE {
      var t := s.(master := Accept(s.master), event := false);
      assert Coherent(t) && SlaveServed(t);
      ServiceMasterSound(t);
    } else {
      var m := s.master;
      var passed := m.(raised := false, pin := m.pin - {CASCADE}, request := m.request - {CASCADE});
      var t := State(passed, Accept(s.slave), false);
      assert Coherent(t);
      ServiceSlaveSound(t);
      ServiceMasterSound(ServiceSlave(t));
    }
  }

  lemma StepSound(s: State, e: Event)
    requires Sound(s) && Enabled(s, e)
    ensures Sound(Step(s, e))
  {
    hide Sound, Raise, Lower, SetMask, EndOfInterrupt, Acknowledge;
    match e
    case RaiseIrq(n) => RaiseSound(s, n);
    case LowerIrq(n) => LowerSound(s, n);
    case WriteMask(slave, mask) => MaskSound(s, slave, mask);
    case Iac => AcknowledgePushes(s);
    case Eoi(slave) => EoiSound(s, slave);
  }

  // ----- Runs

  ghost predicate RunEnabled(s: State, es: seq<Event>)
    decreases |es|
  {
    es == [] || (Enabled(s, es[0]) && RunEnabled(Step(s, es[0]), es[1..]))
  }

  function Run(s: State, es: seq<Event>): State
    decreases |es|
  {
    if es == [] then s else Run(Step(s, es[0]), es[1..])
  }

  lemma {:induction false} RunSound(s: State, es: seq<Event>)
    requires Sound(s) && RunEnabled(s, es)
    ensures Sound(Run(s, es))
    decreases |es|
  {
    if es != [] {
      StepSound(s, es[0]);
      RunSound(Step(s, es[0]), es[1..]);
    }
  }

  /** The line a chip acknowledges in a step. */
  function Taken(s: State, e: Event, slave: bool): seq<nat> {
    if e.Iac? && (s.master.selected == CASCADE) == slave then
      [if slave then s.slave.selected else s.master.selected]
    else
      []
  }

  /** The lines a chip acknowledges over a run, in order. */
  function Acks(s: State, es: seq<Event>, slave: bool): seq<nat>
    decreases |es|
  {
    if es == [] then [] else Taken(s, es[0], slave) + Acks(Step(s, es[0]), es[1..], slave)
  }

  function ChipOf(s: State, slave: bool): Chip {
    if slave then s.slave else s.master
  }

  /** Every line less urgent than this one, or equal to it, waits for the end of interrupt. */
  function Top(c: Chip): nat {
    if c.inService == {} then LINES else c.priority
  }

  /** Without an end of interrupt, a step keeps the nesting, and the chips' tops only move when they acknowledge. */
  lemma StepNests(s: State, e: Event, slave: bool)
    requires Sound(s) && Enabled(s, e) && !e.Eoi? && Nested(ChipOf(s, slave))
    ensures var r := ChipOf(Step(s, e), slave);
            && Nested(r)
            && if Taken(s, e, slave) == [] then Top(r) == Top(ChipOf(s, slave))
               else Taken(s, e, slave) == [Top(r)] && Top(r) < Top(ChipOf(s, slave))
  {
    hide Sound, Raise, Lower, SetMask, Acknowledge;
    match e
    case RaiseIrq(n) => RaiseSound(s, n);
    case LowerIrq(n) => LowerSound(s, n);
    case WriteMask(i, mask) => MaskSound(s, i, mask);
    case Iac => AcknowledgePushes(s);
  }

  ghost predicate Descending(a: seq<nat>, top: nat) {
    && (forall k | 0 <= k < |a| :: a[k] < top)
    && (forall j, k | 0 <= j < k < |a| :: a[j] > a[k])
  }

  lemma Prepend(t: seq<nat>, rest: seq<nat>, top: nat, next: nat)
    requires Descending(rest, next) && if t == [] then next == top else t == [next] && next < top
    ensures Descending(t + rest, top)
  {
    if t == [] {
      assert t + rest == rest;
    } else {
      assert t + rest == [next] + rest;
    }
  }

  /** Until an end of interrupt, the lines a chip acknowledges are more and more urgent. */
  lemma {:induction false} AcksDecrease(s: State, es: seq<Event>, slave: bool)
    requires Sound(s) && RunEnabled(s, es) && Nested(ChipOf(s, slave)) && forall e | e in es :: !e.Eoi?
    ensures Descending(Acks(s, es, slave), Top(ChipOf(s, slave)))
    decreases |es|
  {
    if es != [] {
      StepSound(s, es[0]);
      StepNests(s, es[0], slave);
      AcksDecrease(Step(s, es[0]), es[1..], slave);
      Prepend(Taken(s, es[0], slave), Acks(Step(s, es[0]), es[1..], slave),
              Top(ChipOf(s, slave)), Top(ChipOf(Step(s, es[0]), slave)));
    }
  }

  // ----- The end of interrupt

  lemma TopIsFound(c: Chip)
    requires Shape(c) && Nested(c)
    ensures InServiceBelow(c, c.priority) == if c.inService == {} then LINES else c.priority
  {
    if c.inService == {} {
    } else {
      assert c.priority in c.inService;
    }
  }

  /** The end of interrupt retires the line in service that was acknowledged last, but makes every line count as
      less urgent than nothing: the nesting survives if and only if at most line 7 remains in service. */
  lemma RetireNestsIff(c: Chip)
    requires Shape(c) && Nested(c)
    ensures Retire(c).inService == c.inService - {c.priority}
    ensures Nested(Retire(c)) <==> c.inService - {c.priority} <= {7}
  {
    TopIsFound(c);
    var rest := c.inService - {c.priority};
    if c.inService != {} && rest <= {7} && rest != {} {
      var e :| e in rest;
      assert rest == {7};
    }
  }

  /** A slave interrupt leaves no line in service at the master. Its two ends of interrupt, first the slave's and
      then the master's, leave the master as it was if and only if nothing was in service there. */
  lemma CascadeEoiIff(s: State)
    requires Sound(s) && s.event && s.master.selected == CASCADE && Nested(s.master)
    ensures var r := EndOfInterrupt(EndOfInterrupt(Acknowledge(s), true), false);
            && r.master.inService == s.master.inService - {s.master.priority}
            && (r.master.inService == s.master.inService <==> s.master.inService == {})
  {
    AcknowledgePushes(s);
    var a := Acknowledge(s);
    EoiSound(a, true);
    var b := EndOfInterrupt(a, true);
    EoiSound(b, false);
    assert Nested(b.master);
    hide Acknowledge, EndOfInterrupt, Sound;
    RetireNestsIff(b.master);
  }

  // ----- Slave lines

  /** The line has been raised at the slave and its request is used up. */
  predicate Spent(s: State, irq: nat) {
    irq in s.slave.pin && irq !in s.slave.request
  }

  lemma ServiceMasterSlave(s: State)
    ensures ServiceMaster(s).slave == s.slave
  {
  }

  lemma ServiceSlaveLines(s: State)
    ensures var r := ServiceSlave(s).slave;
            r.pin == s.slave.pin && r.request == s.slave.request && r.edgeLevel == s.slave.edgeLevel
  {
  }

  lemma AcceptSpends(c: Chip, irq: nat)
    requires irq !in c.edgeLevel && c.request <= c.pin && c.selected in c.request
    ensures var r := Accept(c);
            && r.pin == c.pin && r.request <= c.request && r.edgeLevel == c.edgeLevel
            && (c.selected == irq ==> irq !in r.request)
  {
  }

  lemma AcknowledgeSpends(s: State, irq: nat)
    requires Sound(s) && s.event && irq !in s.slave.edgeLevel
    ensures var r := Acknowledge(s).slave;
            && r.edgeLevel == s.slave.edgeLevel && r.pin == s.slave.pin && r.request <= s.slave.request
            && (s.master.selected == CASCADE ==> s.slave.selected in s.slave.request)
            && (s.master.selected == CASCADE && s.slave.selected == irq ==> irq in s.slave.pin && irq !in r.request)
  {
    if s.master.selected == CASCADE {
      AcceptSpends(s.slave, irq);
    }
    hide ServiceMaster, ServiceSlave, Accept, Sound;
    forall t: State {
      ServiceMasterSlave(t);
    }
    forall t: State {
      ServiceSlaveLines(t);
    }
  }

  /** No step lowers a slave pin, so an edge-triggered slave line that was acknowledged stays spent. */
  lemma StepSpends(s: State, e: Event, irq: nat)
    requires Sound(s) && Enabled(s, e) && irq !in s.slave.edgeLevel
    ensures Step(s, e).slave.edgeLevel == s.slave.edgeLevel
    ensures Spent(s, irq) ==> Spent(Step(s, e), irq) && Taken(s, e, true) != [irq]
    ensures Taken(s, e, true) == [irq] ==> Spent(Step(s, e), irq)
  {
    if e.Iac? {
      AcknowledgeSpends(s, irq);
      hide Acknowledge, Sound;
    } else {
      hide Sound, ServiceMaster, ServiceSlave;
      forall t: State {
        ServiceMasterSlave(t);
      }
      forall t: State {
        ServiceSlaveLines(t);
      }
    }
  }

  ghost predicate AtMostOnce(a: seq<nat>, x: nat) {
    forall j, k | 0 <= j < k < |a| :: !(a[j] == x && a[k] == x)
  }

  lemma PrependOnce(t: seq<nat>, rest: seq<nat>, x: nat)
    requires |t| <= 1 && AtMostOnce(rest, x) && (t == [x] ==> x !in rest)
    ensures AtMostOnce(t + rest, x)
  {
    if t == [] {
      assert t + rest == rest;
    } else {
      assert t == [t[0]];
      assert forall k | 0 < k < |t + rest| :: (t + rest)[k] == rest[k - 1];
    }
  }

  /** An edge-triggered slave line is acknowledged at most once over any run, ends of interrupt included. */
  lemma {:induction false} SlaveLineOnce(s: State, es: seq<Event>, irq: nat)
    requires Sound(s) && RunEnabled(s, es) && irq !in s.slave.edgeLevel
    ensures Spent(s, irq) ==> irq !in Acks(s, es, true)
    ensures AtMostOnce(Acks(s, es, true), irq)
    decreases |es|
  {
    if es != [] {
      StepSound(s, es[0]);
      StepSpends(s, es[0], irq);
      SlaveLineOnce(Step(s, es[0]), es[1..], irq);
      PrependOnce(Taken(s, es[0], true), Acks(Step(s, es[0]), es[1..], true), irq);
    }
  }
}
