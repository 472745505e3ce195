/**
 Which lines the 8259 pair passes on, in terms of its registers alone: requested, not masked, not in service, and the
 most urgent of those. A masked line stays silent, and so does one that is not requested.
 */
module PicMasks {
  import opened PicModel
  import opened PicRuns

  /** A request that nothing of its own holds back. */
  predicate Open(c: Chip, irq: nat) {
    irq in c.request && irq !in c.mask && irq !in c.inService
  }

  /** The chip has selected its most urgent open request. */
  ghost predicate SelectsBest(c: Chip) {
    && Open(c, c.selected) && c.selected <= c.priority
    && forall irq: nat | Open(c, irq) && irq <= c.priority :: c.selected <= irq
  }

  predicate HasOpen(c: Chip) {
    exists irq | 0 <= irq <= c.priority :: Open(c, irq)
  }

  /** The registers a service leaves alone. */
  predicate SameLines(a: Chip, b: Chip) {
    && a.mask == b.mask && a.inService == b.inService && a.request == b.request && a.pin == b.pin
    && a.edgeLevel == b.edgeLevel && a.priority == b.priority
  }

  lemma ScanIsBest(c: Chip)
    ensures Scan(c, 0) <= c.priority <==> HasOpen(c)
    ensures Scan(c, 0) <= c.priority ==> SelectsBest(Select(c, Scan(c, 0)))
  {
    var irq := Scan(c, 0);
    if irq <= c.priority {
      var d := Select(c, irq);
      forall e: nat | Open(d, e) && e <= d.priority
        ensures d.selected <= e
      {
        assert Eligible(c, e);
      }
      assert Open(d, irq) && Open(c, irq);
    } else if e :| 0 <= e <= c.priority && Open(c, e) {
      assert Eligible(c, e);
    }
  }

  /** A service of the master selects its best request, if there is one, and sets the event. */
  lemma MasterService(s: State)
    ensures var r := ServiceMaster(s);
            && r.slave == s.slave && SameLines(r.master, s.master)
            && if HasOpen(s.master) then r.event && SelectsBest(r.master) else r == s
  {
    ScanIsBest(s.master);
  }

  /** A service of the slave selects its best request, if there is one, and raises the cascade line. */
  lemma SlaveService(s: State)
    ensures var r := ServiceSlave(s);
            && SameLines(r.slave, s.slave)
            && if !HasOpen(s.slave) then r == s
               else
                 && SelectsBest(r.slave) && CASCADE in r.master.pin
                 && if CASCADE in s.master.pin then r.master == s.master && r.event == s.event
                    else
                      && SameLines(r.master, Assert(s.master, CASCADE))
                      && if HasOpen(Assert(s.master, CASCADE)) then r.event && SelectsBest(r.master)
                         else r.event == s.event && r.master.selected == s.master.selected
  {
    ScanIsBest(s.slave);
    var t := s.(slave := Select(s.slave, Scan(s.slave, 0)));
    MasterService(t.(master := Assert(t.master, CASCADE)));
    hide ServiceMaster, SelectsBest, HasOpen, Scan;
  }

  // ----- the event and the cascade line

  /** Where an event comes from: a step that sets it, or an acknowledge that leaves it set, has selected the most
      urgent request of the master that is neither masked nor in service. */
  lemma EventIsBest(s: State, e: Event)
    requires Enabled(s, e) && Step(s, e).event && (e.Iac? || !s.event)
    ensures SelectsBest(Step(s, e).master)
  {
    hide ServiceMaster, ServiceSlave, SelectsBest, HasOpen;
    match e
    case RaiseIrq(n) =>
      if n < LINES {
        MasterService(s.(master := Assert(s.master, n)));
      } else if n <= 15 {
        SlaveService(s.(slave := Assert(s.slave, n - LINES)));
      }
    case LowerIrq(n) =>
    case WriteMask(slave, mask) =>
      if slave {
        SlaveService(s.(slave := s.slave.(mask := mask)));
      } else {
        MasterService(s.(master := s.master.(mask := mask)));
      }
    case Iac => AcknowledgedBest(s);
    case Eoi(slave) =>
      if slave {
        SlaveService(s.(slave := Retire(s.slave)));
      } else {
        MasterService(s.(master := Retire(s.master)));
      }
  }

  lemma AcknowledgedBest(s: State)
    requires Acknowledge(s).event
    ensures SelectsBest(Acknowledge(s).master)
  {
    var m := s.master;
    if m.selected != CASCADE {
      MasterService(s.(master := Accept(m), event := false));
    } else {
      var passed := m.(raised := false, pin := m.pin - {CASCADE},
                       request := if CASCADE in m.edgeLevel then m.request else m.request - {CASCADE});
      var t := State(passed, Accept(s.slave), false);
      SlaveService(t);
      MasterService(ServiceSlave(t));
      SameOpen(ServiceSlave(t).master, Acknowledge(s).master);
    }
    hide ServiceMaster, ServiceSlave, SelectsBest, HasOpen;
  }

  lemma SameOpen(a: Chip, b: Chip)
    requires SameLines(a, b)
    ensures HasOpen(a) <==> HasOpen(b)
    ensures SelectsBest(a) ==> HasOpen(a)
  {
    assert forall irq: nat :: Open(a, irq) <==> Open(b, irq);
  }

  /** Where a cascade request comes from: a step that raises it has selected the most urgent request of the slave that
      is neither masked nor in service. */
  lemma CascadeIsBest(s: State, e: Event)
    requires Enabled(s, e) && 2 !in s.master.pin && 2 in Step(s, e).master.pin
    ensures SelectsBest(Step(s, e).slave)
  {
    hide ServiceMaster, ServiceSlave, SelectsBest, HasOpen;
    forall t: State {
      MasterService(t);
    }
    match e
    case RaiseIrq(n) =>
      if 8 <= n <= 15 {
        SlaveService(s.(slave := Assert(s.slave, n - LINES)));
      }
    case LowerIrq(n) =>
    case WriteMask(slave, mask) => SlaveService(s.(slave := s.slave.(mask := mask)));
    case Iac =>
      var m := s.master;
      var passed := m.(raised := false, pin := m.pin - {CASCADE},
                       request := if CASCADE in m.edgeLevel then m.request else m.request - {CASCADE});
      SlaveService(State(passed, Accept(s.slave), false));
    case Eoi(slave) => SlaveService(s.(slave := Retire(s.slave)));
  }

  // ----- masked lines

  /** The mask registers hold what was last written. */
  lemma StepMasks(s: State, e: Event)
    ensures Step(s, e).master.mask == if e.WriteMask? && !e.slave then e.mask else s.master.mask
    ensures Step(s, e).slave.mask == if e.WriteMask? && e.slave then e.mask else s.slave.mask
  {
    hide ServiceMaster, ServiceSlave, SelectsBest, HasOpen, InServiceBelow;
    forall t: State {
      MasterService(t);
    }
    forall t: State {
      SlaveService(t);
    }
  }

  lemma SoundMaster(s: State)
    requires Sound(s) && HasOpen(s.master)
    ensures s.event
  {
    var irq :| 0 <= irq <= s.master.priority && Open(s.master, irq);
    assert Eligible(s.master, irq);
  }

  lemma SoundSlave(s: State)
    requires Sound(s) && HasOpen(s.slave)
    ensures CASCADE in s.master.pin
  {
    var irq :| 0 <= irq <= s.slave.priority && Open(s.slave, irq);
    assert Eligible(s.slave, irq);
  }

  lemma MaskedAdds(c: Chip, irq: nat)
    requires irq in c.mask
    ensures HasOpen(Assert(c, irq)) <==> HasOpen(c)
  {
    assert forall e: nat :: Open(Assert(c, irq), e) <==> Open(c, e);
  }

  /** Raising a masked line sets no event, nor does it pass anything from the slave to the master. */
  lemma MaskedRaise(s: State, n: nat)
    requires Sound(s) && n < 16 && n != CASCADE
    requires if n < 8 then n in s.master.mask else n - 8 in s.slave.mask
    ensures Step(s, RaiseIrq(n)).event == s.event
    ensures CASCADE in Step(s, RaiseIrq(n)).master.pin <==> CASCADE in s.master.pin
  {
    hide ServiceMaster, ServiceSlave, SelectsBest, HasOpen, Sound;
    if n < 8 {
      MaskedAdds(s.master, n);
      MasterService(s.(master := Assert(s.master, n)));
      if HasOpen(s.master) { SoundMaster(s); }
    } else {
      MaskedAdds(s.slave, n - 8);
      SlaveService(s.(slave := Assert(s.slave, n - 8)));
      if HasOpen(s.slave) { SoundSlave(s); }
    }
  }

  /** Raising a line that is idle, not masked and urgent enough leaves the event pending, for a line at least as
      urgent. */
  lemma UnmaskedRaise(s: State, n: nat)
    requires Sound(s) && n < 8 && n != CASCADE && n !in s.master.pin && n !in s.master.mask
    requires n !in s.master.inService && n <= s.master.priority
    ensures var r := Step(s, RaiseIrq(n)); r.event && r.master.selected <= n
  {
    var t := s.(master := Assert(s.master, n));
    assert Open(t.master, n);
    assert HasOpen(t.master);
    MasterService(t);
    assert Open(ServiceMaster(t).master, n);
    hide ServiceMaster, HasOpen;
  }

  /** What was last selected and not yet acknowledged is another line. */
  predicate Elsewhere(s: State, slave: bool, irq: nat) {
    if slave then CASCADE in s.master.request ==> s.slave.selected != irq else s.event ==> s.master.selected != irq
  }

  /** The line is masked, or not requested. */
  predicate Shut(s: State, slave: bool, irq: nat) {
    irq in ChipOf(s, slave).mask || irq !in ChipOf(s, slave).request
  }

  lemma ShutIsNotBest(c: Chip, irq: nat)
    requires irq in c.mask || irq !in c.request
    ensures SelectsBest(c) ==> c.selected != irq
  {
  }

  lemma ServiceElsewhere(s: State, ofSlave: bool, slave: bool, irq: nat)
    requires Elsewhere(s, slave, irq) && Shut(s, slave, irq) && (slave || irq != CASCADE)
    requires CASCADE in s.master.pin <==> CASCADE in s.master.request
    ensures var r := Service(s, ofSlave);
            && Elsewhere(r, slave, irq) && Shut(r, slave, irq)
            && (CASCADE in r.master.pin <==> CASCADE in r.master.request)
  {
    MasterService(s);
    SlaveService(s);
    var r := Service(s, ofSlave);
    ShutIsNotBest(ChipOf(s, slave), irq);
    ShutIsNotBest(ChipOf(r, slave), irq);
    hide ServiceMaster, ServiceSlave, SelectsBest, HasOpen;
  }

  lemma AcknowledgeElsewhere(s: State, slave: bool, irq: nat)
    requires Sound(s) && s.event && Elsewhere(s, slave, irq) && Shut(s, slave, irq) && (slave || irq != CASCADE)
    ensures Elsewhere(Acknowledge(s), slave, irq) && Shut(Acknowledge(s), slave, irq)
  {
    var m := s.master;
    if m.selected != CASCADE {
      var t := s.(master := Accept(m), event := false);
      hide Sound;
      ServiceElsewhere(t, false, slave, irq);
    } else {
      var passed := m.(raised := false, pin := m.pin - {CASCADE}, request := m.request - {CASCADE});
      var t := State(passed, Accept(s.slave), false);
      assert Acknowledge(s) == ServiceMaster(ServiceSlave(t));
      hide Sound, ServiceMaster, ServiceSlave, Acknowledge;
      ServiceElsewhere(t, true, slave, irq);
      ServiceElsewhere(Service(t, true), false, slave, irq);
    }
  }

  /** Steps that do not open the line: no write that unmasks it while it is requested, and no raise of it unless it
      is masked or up already. */
  predicate LeavesShut(s: State, e: Event, slave: bool, irq: nat) {
    match e
    case RaiseIrq(n) =>
      n == (if slave then irq + 8 else irq) ==> irq in ChipOf(s, slave).mask || irq in ChipOf(s, slave).pin
    case WriteMask(i, mask) => i == slave ==> irq in mask || irq !in ChipOf(s, slave).request
    case _ => true
  }

  lemma RaiseElsewhere(s: State, n: nat, slave: bool, irq: nat)
    requires Sound(s) && n != CASCADE && irq < LINES && (slave || irq != CASCADE)
    requires Elsewhere(s, slave, irq) && Shut(s, slave, irq) && LeavesShut(s, RaiseIrq(n), slave, irq)
    ensures Elsewhere(Raise(s, n), slave, irq) && Shut(Raise(s, n), slave, irq)
  {
    CascadeRequested(s);
    hide Sound, ServiceMaster, ServiceSlave;
    if n < LINES && n !in s.master.pin {
      ServiceElsewhere(s.(master := Assert(s.master, n)), false, slave, irq);
    } else if LINES <= n <= 15 && n - LINES !in s.slave.pin {
      ServiceElsewhere(s.(slave := Assert(s.slave, n - LINES)), true, slave, irq);
    }
  }

  lemma StepElsewhere(s: State, e: Event, slave: bool, irq: nat)
    requires Sound(s) && Enabled(s, e) && irq < LINES && (slave || irq != CASCADE)
    requires Elsewhere(s, slave, irq) && Shut(s, slave, irq) && LeavesShut(s, e, slave, irq)
    ensures Elsewhere(Step(s, e), slave, irq) && Shut(Step(s, e), slave, irq)
    ensures Taken(s, e, slave) != [irq]
  {
    CascadeRequested(s);
    hide Sound, ServiceMaster, ServiceSlave, InServiceBelow, Acknowledge;
    match e
    case RaiseIrq(n) => RaiseElsewhere(s, n, slave, irq);
    case LowerIrq(n) =>
    case WriteMask(i, mask) =>
      ServiceElsewhere(if i then s.(slave := s.slave.(mask := mask)) else s.(master := s.master.(mask := mask)),
                       i, slave, irq);
    case Iac => AcknowledgeElsewhere(s, slave, irq);
    case Eoi(i) =>
      ServiceElsewhere(if i then s.(slave := Retire(s.slave)) else s.(master := Retire(s.master)), i, slave, irq);
  }

  /** The cascade line's pin and request go together, and an event for it means that it is requested. */
  lemma CascadeRequested(s: State)
    requires Sound(s)
    ensures CASCADE in s.master.pin <==> CASCADE in s.master.request
    ensures s.event && s.master.selected == CASCADE ==> CASCADE in s.master.request
  {
  }

  ghost predicate RunLeavesShut(s: State, es: seq<Event>, slave: bool, irq: nat)
    decreases |es|
  {
    es == [] || (LeavesShut(s, es[0], slave, irq) && RunLeavesShut(Step(s, es[0]), es[1..], slave, irq))
  }

  /** Over any run in which a line stays masked or not requested, it is never acknowledged, unless it was already the
      one selected. */
  lemma {:induction false} ShutLineIsSilent(s: State, es: seq<Event>, slave: bool, irq: nat)
    requires Sound(s) && RunEnabled(s, es) && irq < LINES && (slave || irq != CASCADE)
    requires Elsewhere(s, slave, irq) && Shut(s, slave, irq) && RunLeavesShut(s, es, slave, irq)
    ensures irq !in Acks(s, es, slave)
    decreases |es|
  {
    if es != [] {
      StepSound(s, es[0]);
      StepElsewhere(s, es[0], slave, irq);
      hide Step, Sound, Elsewhere, Shut, LeavesShut, Enabled;
      ShutLineIsSilent(Step(s, es[0]), es[1..], slave, irq);
      AtMostOne(s, es[0], slave);
    }
  }

  lemma AtMostOne(s: State, e: Event, slave: bool)
    ensures |Taken(s, e, slave)| <= 1
  {
  }

  // ----- masked lines over a run

  /** No write of that chip's mask. */
  predicate KeepsMask(e: Event, slave: bool) {
    e.WriteMask? ==> e.slave != slave
  }

  lemma {:induction false} MaskedRun(s: State, es: seq<Event>, slave: bool, irq: nat)
    requires irq in ChipOf(s, slave).mask && forall e | e in es :: KeepsMask(e, slave)
    ensures RunLeavesShut(s, es, slave, irq)
    decreases |es|
  {
    if es != [] {
      assert KeepsMask(es[0], slave);
      StepMasks(s, es[0]);
      hide Step;
      MaskedRun(Step(s, es[0]), es[1..], slave, irq);
    }
  }

  /** A line that stays masked is never acknowledged, whatever is raised. */
  lemma MaskedLineIsSilent(s: State, es: seq<Event>, slave: bool, irq: nat)
    requires Sound(s) && RunEnabled(s, es) && irq < LINES && (slave || irq != CASCADE)
    requires irq in ChipOf(s, slave).mask && Elsewhere(s, slave, irq) && forall e | e in es :: KeepsMask(e, slave)
    ensures irq !in Acks(s, es, slave)
  {
    MaskedRun(s, es, slave, irq);
    ShutLineIsSilent(s, es, slave, irq);
  }

  /** So before the first write of its mask no line of a chip is acknowledged. */
  lemma NothingBeforeMasks(es: seq<Event>, slave: bool, irq: nat)
    requires RunEnabled(INITIAL, es) && irq < LINES && (slave || irq != CASCADE)
    requires forall e | e in es :: KeepsMask(e, slave)
    ensures irq !in Acks(INITIAL, es, slave)
  {
    InitialSound();
    MaskedLineIsSilent(INITIAL, es, slave, irq);
  }

  // ----- lowered lines

  /** No raise of that line of the master. */
  predicate NotRaised(e: Event, irq: nat) {
    e.RaiseIrq? ==> e.n != irq
  }

  lemma StepUnrequested(s: State, e: Event, irq: nat)
    requires irq < LINES && irq != CASCADE && irq !in s.master.request && NotRaised(e, irq)
    ensures irq !in Step(s, e).master.request
  {
    hide ServiceMaster, ServiceSlave, InServiceBelow, SelectsBest, HasOpen;
    forall t: State {
      MasterService(t);
    }
    forall t: State {
      SlaveService(t);
    }
  }

  lemma {:induction false} UnrequestedRun(s: State, es: seq<Event>, irq: nat)
    requires irq < LINES && irq != CASCADE && irq !in s.master.request && forall e | e in es :: NotRaised(e, irq)
    ensures RunLeavesShut(s, es, false, irq)
    decreases |es|
  {
    if es != [] {
      assert NotRaised(es[0], irq);
      StepUnrequested(s, es[0], irq);
      hide Step;
      UnrequestedRun(Step(s, es[0]), es[1..], irq);
    }
  }

  /** A line of the master that its device lowers before it is selected is not acknowledged, over any run that does not
      raise it again, unmasked or not. Lowering a line of the slave changes nothing. */
  lemma LoweredLineIsSilent(s: State, es: seq<Event>, n: nat)
    requires Sound(s) && n < 16 && n != CASCADE && RunEnabled(Step(s, LowerIrq(n)), es)
    ensures n >= 8 ==> Step(s, LowerIrq(n)) == s
    ensures n < 8 && n in s.master.pin && (s.event ==> s.master.selected != n)
            && (forall e | e in es :: NotRaised(e, n)) ==>
              n !in Acks(Step(s, LowerIrq(n)), es, false)
  {
    if n < 8 && n in s.master.pin && (s.event ==> s.master.selected != n) && forall e | e in es :: NotRaised(e, n) {
      StepSound(s, LowerIrq(n));
      var r := Step(s, LowerIrq(n));
      assert n !in r.master.request && r.event == s.event && r.master.selected == s.master.selected;
      hide Step, Sound;
      UnrequestedRun(r, es, n);
      ShutLineIsSilent(r, es, false, n);
    }
  }

  // ----- lines held up

  /** The line is up, and its request is used up. */
  predicate UsedUp(s: State, irq: nat) {
    irq in s.master.pin && irq !in s.master.request
  }

  lemma StepUsedUp(s: State, e: Event, irq: nat)
    requires irq < LINES && irq != CASCADE && UsedUp(s, irq) && !(e.LowerIrq? && e.n == irq)
    ensures UsedUp(Step(s, e), irq)
  {
    hide ServiceMaster, ServiceSlave, InServiceBelow, SelectsBest, HasOpen;
    forall t: State {
      MasterService(t);
    }
    forall t: State {
      SlaveService(t);
    }
  }

  lemma {:induction false} UsedUpRun(s: State, es: seq<Event>, irq: nat)
    requires irq < LINES && irq != CASCADE && UsedUp(s, irq) && forall e | e in es && e.LowerIrq? :: e.n != irq
    ensures RunLeavesShut(s, es, false, irq)
    decreases |es|
  {
    if es != [] {
      StepUsedUp(s, es[0], irq);
      hide Step;
      UsedUpRun(Step(s, es[0]), es[1..], irq);
    }
  }

  lemma AcknowledgeUsesUp(s: State)
    requires Sound(s) && s.event && s.master.selected != CASCADE && s.master.selected !in s.master.edgeLevel
    ensures var r := Acknowledge(s);
            && s.master.selected !in r.master.request && Elsewhere(r, false, s.master.selected)
            && (s.master.selected in s.master.pin ==> UsedUp(r, s.master.selected))
  {
    MasterService(s.(master := Accept(s.master), event := false));
    hide Sound, ServiceMaster, HasOpen;
  }

  /** An edge-triggered line of the master is acknowledged once for each time its device raises it: held up, it is not
      acknowledged again, over any run, until the device has lowered it. */
  lemma HeldLineOnce(s: State, es: seq<Event>)
    requires Sound(s) && s.event && s.master.selected < LINES && s.master.selected != CASCADE
    requires s.master.selected !in s.master.edgeLevel && s.master.selected in s.master.pin
    requires RunEnabled(Step(s, Iac), es) && forall e | e in es && e.LowerIrq? :: e.n != s.master.selected
    ensures s.master.selected !in Acks(Step(s, Iac), es, false)
  {
    StepSound(s, Iac);
    AcknowledgeUsesUp(s);
    hide Sound, Acknowledge;
    UsedUpRun(Step(s, Iac), es, s.master.selected);
    ShutLineIsSilent(Step(s, Iac), es, false, s.master.selected);
  }
}
