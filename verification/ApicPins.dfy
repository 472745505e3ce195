/**
 The I/O APIC pins over whole runs: one token in flight per level pin, and the edge latch.
 */
module ApicPins {
  import opened ApicInvariants
  import opened ApicModel
  import opened Bytes

  // ---------- level pins ----------

  /** Pin p is a fixed, physical level pin aimed at the local APIC, and v is its own vector. */
  ghost predicate Dedicated(c: Chips, p: nat, v: nat) {
    && PinsOk(c) && p < NUM_PINS && 16 <= v < 256 && v != c.local.spurious
    && Wired(c.table[p], v)
    && (forall q | 0 <= q < NUM_PINS && q != p :: c.table[q].vector != v)
  }

  predicate Wired(e: Entry, v: nat) {
    e.vector == v && e.level && e.deliveryMode == FIXED && !e.logical && e.dest == ZERO
  }

  /** Remote-IRR is set exactly when the vector is in one of IRR and ISR, never both, with its
      trigger-mode bit; deliveries exceed ends by one then, and by none otherwise. */
  ghost predicate Token(c: Chips, p: nat, v: nat) {
    && Dedicated(c, p, v)
    && (c.table[p].remoteIrr <==> (v in c.local.irr || v in c.local.isr))
    && !(v in c.local.irr && v in c.local.isr)
    && (c.table[p].remoteIrr ==> v in c.local.tmr)
    && c.sent[p] == c.ended[p] + (if c.table[p].remoteIrr then 1 else 0)
  }

  /** The run leaves the pin's programming and its vector alone: other sources use other vectors, and
      a write of the pin's own entry keeps everything but the mask. */
  ghost predicate Respects(c: Chips, e: Event, p: nat, v: nat)
    requires p < |c.table|
  {
    match e
    case LocalIrq(vector, _) => vector != v
    case WriteLow(pin, entry) =>
      if pin == p then entry.remoteIrr == c.table[p].remoteIrr && Wired(entry.(dest := ZERO), v) else entry.vector != v
    case WriteHigh(pin, dest) => pin == p ==> dest == ZERO
    case WriteSpurious(vector, _) => vector != v
    case _ => true
  }

  lemma SetIrqOther(l: Local, u: nat, level: bool, v: nat)
    requires u != v
    ensures var r := SetIrq(l, u, level);
            && (v in r.irr <==> v in l.irr) && (v in r.isr <==> v in l.isr) && (v in r.tmr <==> v in l.tmr)
            && r.spurious == l.spurious
  {
    hide Top, Deliverable;
  }

  lemma SetIrqOwn(l: Local, v: nat)
    requires 16 <= v && v !in l.irr
    ensures var r := SetIrq(l, v, true);
            v in r.irr && (v in r.isr <==> v in l.isr) && v in r.tmr && r.spurious == l.spurious
  {
    hide Top, Deliverable;
  }

  lemma TryPinToken(c: Chips, q: nat, p: nat, v: nat)
    requires Token(c, p, v) && q < NUM_PINS
    ensures Token(TryPin(c, q), p, v)
  {
    if q == p {
      TryOwnPin(c, p, v);
    } else {
      TryOtherPin(c, q, p, v);
    }
  }

  lemma TryOwnPin(c: Chips, p: nat, v: nat)
    requires Token(c, p, v)
    ensures Token(TryPin(c, p), p, v)
  {
    if !c.table[p].remoteIrr {
      SetIrqOwn(c.local, v);
    }
    hide SetIrq;
  }

  lemma TryOtherPin(c: Chips, q: nat, p: nat, v: nat)
    requires Token(c, p, v) && q < NUM_PINS && q != p
    ensures Token(TryPin(c, q), p, v)
  {
    OtherPinFrame(c, q, p, v);
    hide TryPin;
  }

  /** Trying another pin moves nothing that the token of pin p and vector v speaks of. */
  lemma OtherPinFrame(c: Chips, q: nat, p: nat, v: nat)
    requires PinsOk(c) && q < NUM_PINS && p < NUM_PINS && q != p && c.table[q].vector != v
    ensures var r := TryPin(c, q);
            && PinsOk(r) && r.table[p] == c.table[p] && r.sent[p] == c.sent[p] && r.ended == c.ended
            && r.local.spurious == c.local.spurious
            && (v in r.local.irr <==> v in c.local.irr) && (v in r.local.isr <==> v in c.local.isr)
            && (v in r.local.tmr <==> v in c.local.tmr)
            && forall k | 0 <= k < NUM_PINS :: r.table[k].vector == c.table[k].vector
  {
    SetIrqOther(c.local, c.table[q].vector, c.table[q].level, v);
    hide SetIrq, Accepts, Reaches;
  }

  lemma {:induction false} ServiceToken(c: Chips, q: nat, p: nat, v: nat)
    requires Token(c, p, v) && q <= NUM_PINS
    ensures Token(ServicePins(c, q), p, v)
    decreases NUM_PINS - q
  {
    if q < NUM_PINS {
      TryPinToken(c, q, p, v);
      ServiceToken(TryPin(c, q), q + 1, p, v);
    }
  }

  lemma WindowToken(c: Chips, picAgain: bool, p: nat, v: nat)
    requires Token(c, p, v) && Sound(c)
    ensures Token(OpenWindow(c, picAgain), p, v)
  {
    if c.local.event {
      assert Top(c.local.irr) in c.local.irr;
    }
    hide Top, Deliverable;
  }

  /** Ending the vector clears Remote-IRR on its pin; ending another vector leaves the pin alone. */
  lemma EoiToken(c: Chips, p: nat, v: nat)
    requires Token(c, p, v) && Sound(c)
    ensures Token(EndOfInterrupt(c), p, v)
  {
    hide Deliverable;
    var u := Top(c.local.isr);
    if u == v {
      assert c.local.isr != {};
      assert v in c.local.isr;
    }
  }

  lemma LowWordToken(c: Chips, q: nat, entry: Entry, p: nat, v: nat)
    requires Token(c, p, v) && ValidEvent(WriteLow(q, entry)) && Respects(c, WriteLow(q, entry), p, v)
    ensures Token(Stored(c, q, entry), p, v)
  {
  }

  lemma HighWordToken(c: Chips, q: nat, dest: Byte, p: nat, v: nat)
    requires Token(c, p, v) && ValidEvent(WriteHigh(q, dest)) && Respects(c, WriteHigh(q, dest), p, v)
    ensures Token(c.(table := c.table[q := c.table[q].(dest := dest)]), p, v)
  {
  }

  lemma LocalIrqToken(c: Chips, vector: nat, level: bool, p: nat, v: nat)
    requires Token(c, p, v) && vector != v
    ensures Token(c.(local := SetIrq(c.local, vector, level)), p, v)
  {
    SetIrqOther(c.local, vector, level, v);
    hide SetIrq;
  }

  lemma StepToken(c: Chips, e: Event, p: nat, v: nat)
    requires Token(c, p, v) && Sound(c) && ValidEvent(e) && Respects(c, e, p, v)
    ensures Token(Step(c, e), p, v)
  {
    hide Top, Deliverable, ServicePins, EndOfInterrupt, OpenWindow, SetIrq, Stored;
    match e {
      case RaiseIrq(irq) =>
        var q := PinOf(irq);
        if q < NUM_PINS { ServiceToken(c.(pins := c.pins + {q}), 0, p, v); }
      case WriteLow(q, entry) =>
        LowWordToken(c, q, entry, p, v);
        ServiceToken(Stored(c, q, entry), 0, p, v);
      case WriteHigh(q, dest) =>
        HighWordToken(c, q, dest, p, v);
        ServiceToken(c.(table := c.table[q := c.table[q].(dest := dest)]), 0, p, v);
      case LocalIrq(vector, level) => LocalIrqToken(c, vector, level, p, v);
      case WindowOpen(picAgain) => WindowToken(c, picAgain, p, v);
      case Eoi => EoiToken(c, p, v);
      case _ =>
    }
  }

  ghost predicate RunRespects(c: Chips, es: seq<Event>, p: nat, v: nat)
    requires Sound(c) && ValidRun(es) && p < NUM_PINS
    decreases |es|
  {
    es == [] || (Respects(c, es[0], p, v) && (StepSound(c, es[0]); RunRespects(Step(c, es[0]), es[1..], p, v)))
  }

  /** One token per level pin, over any run that leaves its programming alone. */
  lemma {:induction false} TokenConserved(c: Chips, es: seq<Event>, p: nat, v: nat)
    requires Token(c, p, v) && Sound(c) && ValidRun(es) && RunRespects(c, es, p, v)
    ensures Token(Run(c, es), p, v)
    decreases |es|
  {
    if es != [] {
      StepSound(c, es[0]);
      StepToken(c, es[0], p, v);
      TokenConserved(Step(c, es[0]), es[1..], p, v);
    }
  }

  /** Why the pin must be so programmed: a fixed level delivery always sets Remote-IRR, but it puts a new
      request in the local APIC exactly when it reaches it, with a legal vector not yet requested. */
  lemma DeliveryMakesTokenIff(c: Chips, p: nat)
    requires PinsOk(c) && p < NUM_PINS && c.table[p].level && Sendable(c.table[p])
    requires c.table[p].deliveryMode == FIXED
    ensures SendPin(c, p).table[p].remoteIrr
    ensures SendPin(c, p).local.irr != c.local.irr
            <==> Reaches(c.local, c.table[p]) && 16 <= c.table[p].vector && c.table[p].vector !in c.local.irr
  {
    hide Deliverable;
    var v := c.table[p].vector;
    if v !in c.local.irr {
      assert v in c.local.irr + {v};
    }
  }

  predicate Settled(e: Entry) {
    e.masked || (e.level && e.remoteIrr)
  }

  /** Every asserted pin is masked or has its level interrupt in flight: nothing is left to send. */
  ghost predicate AllSettled(c: Chips)
    requires PinsOk(c)
  {
    forall p | p in c.pins :: Settled(c.table[p])
  }

  /** The end of interrupt does not look at the pins again. It leaves nothing unsent if and only if it is not
      passed on at all, or no asserted pin that it ends is unmasked. */
  lemma EoiSettlesIff(c: Chips)
    requires Sound(c) && AllSettled(c)
    ensures var v := Top(c.local.isr);
            && Sound(Step(c, Eoi))
            && (AllSettled(Step(c, Eoi))
                <==> || v == c.local.spurious || v !in c.local.tmr
                     || forall p | p in c.pins && Ends(c.table[p], v) :: c.table[p].masked)
  {
    StepSound(c, Eoi);
    var (v, r) := (Top(c.local.isr), Step(c, Eoi));
    hide Sound, Top;
    if v != c.local.spurious && v in c.local.tmr {
      forall p | p in c.pins
        ensures Settled(r.table[p]) <==> (Ends(c.table[p], v) ==> c.table[p].masked)
      {
        assert Settled(c.table[p]);
      }
    } else {
      assert r.table == c.table && r.pins == c.pins;
    }
  }

  /** A level pin is asserted and could be sent, but is not. */
  ghost predicate Unsent(c: Chips, p: nat, count: nat) {
    PinsOk(c) && p < NUM_PINS && p in c.pins && c.table[p].level && Sendable(c.table[p]) && c.sent[p] == count
  }

  /** No pin is raised, no entry is written, and the device keeps its line asserted. */
  predicate LeavesAlone(e: Event, p: nat) {
    !e.RaiseIrq? && !e.WriteLow? && !e.WriteHigh? && (e.LowerIrq? ==> PinOf(e.irq) != p)
  }

  lemma StepLeavesUnsent(c: Chips, e: Event, p: nat, count: nat)
    requires Sound(c) && Unsent(c, p, count) && ValidEvent(e) && LeavesAlone(e, p)
    ensures Unsent(Step(c, e), p, count)
  {
    StepSound(c, e);
    hide StackOrdered, Acknowledge, LocalEoi, SetIrq, SetTpr, Top;
  }

  lemma {:induction false} RunLeavesUnsent(c: Chips, es: seq<Event>, p: nat, count: nat)
    requires Sound(c) && Unsent(c, p, count) && ValidRun(es) && forall e | e in es :: LeavesAlone(e, p)
    ensures Unsent(Run(c, es), p, count)
    decreases |es|
  {
    if es != [] {
      StepSound(c, es[0]);
      StepLeavesUnsent(c, es[0], p, count);
      RunLeavesUnsent(Step(c, es[0]), es[1..], p, count);
    }
  }

  /** So a line still asserted at its end of interrupt waits, over any run, until some pin is raised, an entry
      is written, or the device gives up. */
  lemma AssertedPinWaits(c: Chips, es: seq<Event>, p: nat)
    requires Sound(c) && ValidRun(es) && p in c.pins && !c.table[p].masked && forall e | e in es :: LeavesAlone(e, p)
    requires var v := Top(c.local.isr); v != c.local.spurious && v in c.local.tmr && Ends(c.table[p], v)
    ensures Sound(Step(c, Eoi)) && Unsent(Run(Step(c, Eoi), es), p, c.sent[p])
  {
    StepSound(c, Eoi);
    assert Unsent(Step(c, Eoi), p, c.sent[p]);
    RunLeavesUnsent(Step(c, Eoi), es, p, c.sent[p]);
  }

  /** The pin loop when at most pin p is asserted. */
  lemma {:induction false} ServeOnly(c: Chips, p: nat, k: nat)
    requires PinsOk(c) && p < NUM_PINS && k <= NUM_PINS && c.pins <= {p}
    ensures ServicePins(c, k) == if k <= p then TryPin(c, p) else c
    decreases NUM_PINS - k
  {
    if k < NUM_PINS {
      hide BusDeliver, Accepts;
      if k == p {
        assert PinsOk(TryPin(c, p)) && TryPin(c, p).pins <= {p};
      } else {
        assert TryPin(c, k) == c;
      }
      ServeOnly(TryPin(c, k), p, k + 1);
    }
  }

  function LevelEntry(v: nat): Entry {
    Entry(v, FIXED, false, false, false, true, false, ZERO)
  }

  /** A level pin programmed after reset, raised, and taken in service by the processor. */
  function InServiceRun(irq: nat, v: nat): seq<Event> {
    [WriteLow(PinOf(irq), LevelEntry(v)), RaiseIrq(irq), WindowOpen(false)]
  }

  function Programmed(c: Chips, p: nat, v: nat): Chips
    requires p < |c.table|
  {
    c.(table := c.table[p := LevelEntry(v)])
  }

  lemma ProgramStep(p: nat, v: nat)
    requires p < NUM_PINS && 16 <= v < 0xff
    ensures PinsOk(RESET) && PinsOk(Programmed(RESET, p, v))
    ensures Step(RESET, WriteLow(p, LevelEntry(v))) == Programmed(RESET, p, v)
  {
    ServeOnly(Programmed(RESET, p, v), p, 0);
  }

  lemma RaiseStep(irq: nat, v: nat)
    requires PinOf(irq) < NUM_PINS && 16 <= v < 0xff && PinsOk(Programmed(RESET, PinOf(irq), v))
    ensures var (p, c) := (PinOf(irq), Step(Programmed(RESET, PinOf(irq), v), RaiseIrq(irq)));
            && PinsOk(c) && c.pins == {p} && c.table[p] == LevelEntry(v).(remoteIrr := true)
            && c.local == RESET.local.(irr := {v}, tmr := {v}, event := true, window := true) && !c.picEvent
  {
    var p := PinOf(irq);
    var s := Programmed(RESET, p, v);
    var t := s.(pins := s.pins + {p});
    assert t.pins == {p} && t.table[p] == LevelEntry(v);
    ServeOnly(t, p, 0);
    FirstRequest(v);
    assert Step(s, RaiseIrq(irq)) == TryPin(t, p);
    assert TryPin(t, p).local == SetIrq(RESET.local, v, true);
  }

  lemma FirstRequest(v: nat)
    requires 16 <= v < 0xff
    ensures SetIrq(RESET.local, v, true) == RESET.local.(irr := {v}, tmr := {v}, event := true, window := true)
  {
    assert Top({v}) == v && Top({}) == 0;
    assert {} + {v} == {v};
  }

  /** So the condition of the end of interrupt fails in states the guest reaches: a device that holds its line
      through its own end of interrupt is left unsent. */
  lemma UnsentReached(irq: nat, v: nat)
    requires PinOf(irq) < NUM_PINS && 16 <= v < 0xff
    ensures ValidRun(InServiceRun(irq, v)) && Sound(RESET)
    ensures var c := Run(RESET, InServiceRun(irq, v));
            && Sound(c) && AllSettled(c) && Sound(Step(c, Eoi)) && !AllSettled(Step(c, Eoi))
  {
    ResetSound();
    var es := InServiceRun(irq, v);
    var c1 := Step(RESET, es[0]);
    StepSound(RESET, es[0]);
    var c2 := Step(c1, es[1]);
    StepSound(c1, es[1]);
    ProgramStep(PinOf(irq), v);
    RaiseStep(irq, v);
    var c3 := Step(c2, es[2]);
    StepSound(c2, es[2]);
    RunOfThree(RESET, es);
    TakenInService(c2, v);
    hide Step, ServicePins, Sound, Top;
    EoiSettlesIff(c3);
    assert PinOf(irq) in c3.pins && Ends(c3.table[PinOf(irq)], v);
  }

  lemma RunOfThree(c: Chips, es: seq<Event>)
    requires Sound(c) && ValidRun(es) && |es| == 3
    ensures Sound(Step(c, es[0])) && Sound(Step(Step(c, es[0]), es[1]))
    ensures Run(c, es) == Step(Step(Step(c, es[0]), es[1]), es[2])
  {
    StepSound(c, es[0]);
    StepSound(Step(c, es[0]), es[1]);
    hide Step;
    var c2 := Step(Step(c, es[0]), es[1]);
    assert Run(c, es) == Run(Step(c, es[0]), es[1..]) == Run(c2, es[1..][1..]);
    assert es[1..][1..][0] == es[2] && es[1..][1..][1..] == [];
  }

  lemma TakenInService(c: Chips, v: nat)
    requires PinsOk(c) && !c.picEvent && 16 <= v < 0xff
    requires c.local == RESET.local.(irr := {v}, tmr := {v}, event := true, window := true)
    ensures var r := Step(c, WindowOpen(false));
            && r.pins == c.pins && r.table == c.table && Top(r.local.isr) == v && v in r.local.tmr
            && r.local.spurious == 0xff
  {
    assert Top({v}) == v && Top({}) == 0;
    assert {v} - {v} == {} && {} + {v} == {v};
  }

  // ---------- edge pins ----------

  /** An entry the bus always accepts. */
  predicate Routine(e: Entry) {
    e.deliveryMode == FIXED || (e.deliveryMode == LOW_PRI && !e.logical)
  }

  ghost predicate AllRoutine(c: Chips) {
    PinsOk(c) && forall p | 0 <= p < NUM_PINS :: Routine(c.table[p])
  }

  /** The edge latch: a pin still latched at a step boundary is masked. */
  ghost predicate LatchedAreMasked(c: Chips) {
    AllRoutine(c) && forall p | p in c.pins && !c.table[p].level :: c.table[p].masked
  }

  lemma TryPinFrame(c: Chips, p: nat, q: nat)
    requires PinsOk(c) && p < NUM_PINS && q < NUM_PINS && p != q
    ensures var r := TryPin(c, p);
            && PinsOk(r) && r.table[q] == c.table[q] && r.sent[q] == c.sent[q] && (q in r.pins <==> q in c.pins)
  {
    hide Accepts, Reaches, SetIrq;
  }

  lemma TryPinSettles(c: Chips, p: nat)
    requires AllRoutine(c) && p < NUM_PINS
    ensures AllRoutine(TryPin(c, p))
    ensures p in TryPin(c, p).pins ==> Settled(TryPin(c, p).table[p])
  {
    hide Reaches, SetIrq;
  }

  /** After the pin loop every requesting pin is masked or is a level pin with its token in flight. */
  lemma {:induction false} ServiceSettles(c: Chips, q: nat)
    requires AllRoutine(c) && q <= NUM_PINS
    requires forall p | p in c.pins && p < q :: Settled(c.table[p])
    ensures var r := ServicePins(c, q); AllRoutine(r) && forall p | p in r.pins :: Settled(r.table[p])
    decreases NUM_PINS - q
  {
    if q < NUM_PINS {
      TryPinSettles(c, q);
      forall p | p in TryPin(c, q).pins && p < q + 1 ensures Settled(TryPin(c, q).table[p]) {
        if p < q { TryPinFrame(c, q, p); }
      }
      hide TryPin;
      ServiceSettles(TryPin(c, q), q + 1);
    }
  }

  lemma StepKeepsLatch(c: Chips, e: Event)
    requires LatchedAreMasked(c) && ValidEvent(e) && (e.WriteLow? ==> Routine(e.entry))
    ensures LatchedAreMasked(Step(c, e))
  {
    match e {
      case RaiseIrq(irq) =>
        var p := PinOf(irq);
        if p < NUM_PINS { ServiceSettles(c.(pins := c.pins + {p}), 0); }
      case WriteLow(p, entry) =>
        var stored := entry.(dest := c.table[p].dest, remoteIrr := entry.level && entry.remoteIrr);
        ServiceSettles(c.(table := c.table[p := stored]), 0);
      case WriteHigh(p, dest) =>
        ServiceSettles(c.(table := c.table[p := c.table[p].(dest := dest)]), 0);
      case _ =>
        hide Acknowledge, LocalEoi, SetIrq, SetTpr, ServicePins;
    }
  }

  /** Over any run with fixed delivery, a latched edge pin at a step boundary is masked. */
  lemma {:induction false} LatchInvariant(c: Chips, es: seq<Event>)
    requires LatchedAreMasked(c) && Sound(c) && ValidRun(es)
    requires forall e | e in es && e.WriteLow? :: Routine(e.entry)
    ensures LatchedAreMasked(Run(c, es))
    decreases |es|
  {
    if es != [] {
      StepSound(c, es[0]);
      StepKeepsLatch(c, es[0]);
      LatchInvariant(Step(c, es[0]), es[1..]);
    }
  }

  ghost predicate Latched(c: Chips, q: nat, count: nat) {
    PinsOk(c) && q < NUM_PINS && q in c.pins && !c.table[q].level && c.table[q].masked && c.sent[q] == count
  }

  lemma {:induction false} ServiceKeepsLatched(c: Chips, k: nat, q: nat, count: nat)
    requires Latched(c, q, count) && k <= NUM_PINS
    ensures Latched(ServicePins(c, k), q, count)
    decreases NUM_PINS - k
  {
    if k < NUM_PINS {
      if k != q { TryPinFrame(c, k, q); }
      hide SetIrq, BusDeliver, Accepts;
      ServiceKeepsLatched(TryPin(c, k), k + 1, q, count);
    }
  }

  lemma StepKeepsLatched(c: Chips, e: Event, q: nat, count: nat)
    requires Latched(c, q, count) && ValidEvent(e) && !(e.WriteLow? && e.pin == q)
    ensures Latched(Step(c, e), q, count)
  {
    match e {
      case RaiseIrq(irq) =>
        var p := PinOf(irq);
        if p < NUM_PINS { ServiceKeepsLatched(c.(pins := c.pins + {p}), 0, q, count); }
      case WriteLow(p, entry) =>
        var stored := entry.(dest := c.table[p].dest, remoteIrr := entry.level && entry.remoteIrr);
        ServiceKeepsLatched(c.(table := c.table[p := stored]), 0, q, count);
      case WriteHigh(p, dest) =>
        ServiceKeepsLatched(c.(table := c.table[p := c.table[p].(dest := dest)]), 0, q, count);
      case _ =>
        hide Acknowledge, LocalEoi, SetIrq, SetTpr, ServicePins;
    }
  }

  lemma {:induction false} RunKeepsLatched(c: Chips, es: seq<Event>, q: nat, count: nat)
    requires Latched(c, q, count) && Sound(c) && ValidRun(es)
    requires forall e | e in es && e.WriteLow? :: e.pin != q
    ensures Latched(Run(c, es), q, count)
    decreases |es|
  {
    if es != [] {
      StepSound(c, es[0]);
      StepKeepsLatched(c, es[0], q, count);
      RunKeepsLatched(Step(c, es[0]), es[1..], q, count);
    }
  }

  /** A quiet pin is untouched by the pin loop. */
  lemma {:induction false} ServiceSkips(c: Chips, k: nat, q: nat)
    requires PinsOk(c) && k <= NUM_PINS && q < NUM_PINS && q !in c.pins
    ensures PinsOk(ServicePins(c, k))
    ensures ServicePins(c, k).sent[q] == c.sent[q] && q !in ServicePins(c, k).pins
    decreases NUM_PINS - k
  {
    if k < NUM_PINS {
      if k != q { TryPinFrame(c, k, q); }
      hide SetIrq, BusDeliver, Accepts;
      ServiceSkips(TryPin(c, k), k + 1, q);
    }
  }

  lemma {:induction false} ServiceSendsOnce(c: Chips, k: nat, q: nat)
    requires PinsOk(c) && k <= q < NUM_PINS && q in c.pins
    requires !c.table[q].masked && !c.table[q].level && Routine(c.table[q])
    ensures PinsOk(ServicePins(c, k))
    ensures ServicePins(c, k).sent[q] == c.sent[q] + 1 && q !in ServicePins(c, k).pins
    decreases q - k
  {
    hide SetIrq, BusDeliver;
    if k < q {
      TryPinFrame(c, k, q);
      ServiceSendsOnce(TryPin(c, k), k + 1, q);
    } else {
      ServiceSkips(TryPin(c, q), q + 1, q);
    }
  }

  /** The edge latch delivers once: an edge that arrives while its pin is masked is remembered through
      any run that leaves the entry alone - further edges on the pin included - and is sent exactly
      once when the guest unmasks it. */
  lemma EdgeDeliveredOnce(c: Chips, irq: nat, es: seq<Event>, unmasked: Entry)
    requires Sound(c) && ValidRun(es) && PinOf(irq) < NUM_PINS && PinOf(irq) !in c.pins
    requires !c.table[PinOf(irq)].level && c.table[PinOf(irq)].masked
    requires forall e | e in es && e.WriteLow? :: e.pin != PinOf(irq)
    requires unmasked.vector < 256 && !unmasked.masked && !unmasked.level && Routine(unmasked)
    ensures Sound(Step(c, RaiseIrq(irq)))
    ensures var q := PinOf(irq);
            var waiting := Run(Step(c, RaiseIrq(irq)), es);
            && PinsOk(waiting) && q in waiting.pins && waiting.sent[q] == c.sent[q]
            && (var r := Step(waiting, WriteLow(q, unmasked)); PinsOk(r) && r.sent[q] == c.sent[q] + 1 && q !in r.pins)
  {
    var q := PinOf(irq);
    StepSound(c, RaiseIrq(irq));
    ServiceKeepsLatched(c.(pins := c.pins + {q}), 0, q, c.sent[q]);
    var raised := Step(c, RaiseIrq(irq));
    RunKeepsLatched(raised, es, q, c.sent[q]);
    var waiting := Run(raised, es);
    var stored := unmasked.(dest := waiting.table[q].dest, remoteIrr := false);
    ServiceSendsOnce(waiting.(table := waiting.table[q := stored]), 0, q);
    StepSound(waiting, WriteLow(q, unmasked));
  }
}
