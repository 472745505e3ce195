/**
 Where an interrupt goes: which raised pins put their vector in the request register, what an end of interrupt is
 told to, what a device takes back by lowering its line, and what the guest's table writes leave in the table.
 */
module ApicRouting {
  import opened ApicInvariants
  import opened ApicModel
  import opened ApicPins
  import opened Bytes

  // ----- destinations

  /** The one local APIC is among the addressees of a logical destination: in the flat model they share a bit, in
      the cluster model the cluster and a bit below it, or everyone is addressed. */
  predicate Addressed(ldr: Byte, dfr: nat, dest: Byte) {
    match dfr
    case 15 => exists k | 0 <= k < 8 :: dest[k] && ldr[k]
    case 0 =>
      || (forall k | 0 <= k < 8 :: dest[k])
      || (dest[4..8] == ldr[4..8] && exists k | 0 <= k < 4 :: dest[k] && ldr[k])
    case _ => false
  }

  /** What the write of the logical address register keeps. */
  function Narrow(value: Byte): Byte {
    And(value, [true, true, true, true, false, false, false, false])
  }

  /** The register is four bits wide: in the flat model a destination that shares a bit with the value written is
      missed if and only if it shares none of the lowest four. */
  lemma NarrowRegisterIff(value: Byte, dest: Byte)
    requires Addressed(value, 15, dest)
    ensures !Addressed(Narrow(value), 15, dest) <==> forall k | 0 <= k < 4 :: !(dest[k] && value[k])
  {
    if k :| 0 <= k < 4 && dest[k] && value[k] {
      assert Narrow(value)[k];
    }
  }

  lemma MatchIsAddressed(l: Local, dest: Byte)
    ensures MatchesLogical(l, dest) <==> Addressed(l.ldr, l.dfr, dest)
  {
    if l.dfr == 15 {
      if k :| 0 <= k < 8 && dest[k] && l.ldr[k] {
        assert And(dest, l.ldr)[k] != ZERO[k];
      } else {
        assert And(dest, l.ldr) == ZERO;
      }
    } else {
      assert dest == ONES <==> forall k | 0 <= k < 8 :: dest[k];
      assert dest[4..8] == l.ldr[4..8] <==> forall k | 4 <= k < 8 :: dest[k] == l.ldr[k] by {
        if dest[4..8] == l.ldr[4..8] {
          forall k | 4 <= k < 8 ensures dest[k] == l.ldr[k] {
            assert dest[4..8][k - 4] == l.ldr[4..8][k - 4];
          }
        }
      }
    }
  }

  /** A fixed or lowest-priority entry reaches the local APIC: physically as destination 0, logically as an
      addressee; lowest priority needs no address while the APIC may take the focus. */
  predicate Targets(l: Local, e: Entry) {
    if !e.logical then (forall k | 0 <= k < 8 :: !e.dest[k])
    else (e.deliveryMode == 1 && !l.focusDisable) || Addressed(l.ldr, l.dfr, e.dest)
  }

  lemma BusTargets(l: Local, e: Entry)
    requires e.deliveryMode <= 1
    ensures Accepts(l, e) && Reaches(l, e) <==> Targets(l, e)
  {
    MatchIsAddressed(l, e.dest);
    assert e.dest == ZERO <==> forall k | 0 <= k < 8 :: !e.dest[k];
    hide MatchesLogical, Addressed;
  }

  /** The pin loop when pin p is the only one that could be sent. */
  lemma {:induction false} ServeUnsettled(c: Chips, p: nat, k: nat)
    requires PinsOk(c) && p < NUM_PINS && k <= NUM_PINS
    requires forall q | q in c.pins && q >= k && q != p :: Settled(c.table[q])
    ensures ServicePins(c, k) == if k <= p then TryPin(c, p) else c
    decreases NUM_PINS - k
  {
    if k < NUM_PINS {
      hide BusDeliver, Accepts;
      if k != p {
        assert TryPin(c, k) == c;
      } else {
        forall q | q in c.pins && q > k ensures TryPin(c, p).table[q] == c.table[q] {
          TryPinFrame(c, p, q);
        }
        assert PinsOk(TryPin(c, p));
      }
      hide TryPin;
      ServeUnsettled(TryPin(c, k), p, k + 1);
    }
  }

  /** The pin of an IRQ. */
  predicate Wires(irq: nat, p: nat) {
    p < 24 && (if irq == 0 then p == 2 else p == irq)
  }

  lemma RaiseIsOneTry(c: Chips, irq: nat, p: nat)
    requires NothingToSend(c) && Wires(irq, p) && (c.table[p].level || p !in c.pins)
    ensures PinsOk(c) && Step(c, RaiseIrq(irq)) == TryPin(c.(pins := c.pins + {p}), p)
  {
    var d := c.(pins := c.pins + {p});
    assert PinsOk(d);
    ServeUnsettled(d, p, 0);
    hide TryPin, ServicePins;
  }

  ghost predicate NothingToSend(c: Chips) {
    PinsOk(c) && AllSettled(c)
  }

  /** Raising a pin, when nothing else is left to send, requests its vector if and only if the entry is not masked,
      not in flight, legal and addressed to the local APIC; it requests nothing else. */
  lemma RaiseDelivers(c: Chips, irq: nat, p: nat)
    requires NothingToSend(c) && Wires(irq, p) && (c.table[p].level || p !in c.pins) && c.table[p].deliveryMode <= 1
    ensures PinsOk(c)
    ensures var (e, r) := (c.table[p], Step(c, RaiseIrq(irq)).local);
            r.irr == if !e.masked && !(e.level && e.remoteIrr) && e.vector >= 16 && Targets(c.local, e)
                     then c.local.irr + {e.vector} else c.local.irr
  {
    RaiseIsOneTry(c, irq, p);
    BusTargets(c.local, c.table[p]);
    RequestAdds(c.local, c.table[p].vector, c.table[p].level);
    hide Step, SetIrq, Accepts, Reaches, Targets;
  }

  /** An edge that is latched already is lost: the raise does nothing, for this pin or any other. */
  lemma LatchedEdgeIsIgnored(c: Chips, irq: nat, p: nat)
    requires PinsOk(c) && Wires(irq, p) && !c.table[p].level && p in c.pins
    ensures Step(c, RaiseIrq(irq)) == c
  {
  }

  /** Every other raise, and every write of the table, leaves nothing to send, with delivery the bus accepts. */
  lemma StepSettles(c: Chips, e: Event, p: nat)
    requires AllRoutine(c) && ValidEvent(e) && (e.WriteLow? ==> Routine(e.entry))
    requires e.WriteLow? || e.WriteHigh? || (e.RaiseIrq? && Wires(e.irq, p) && (c.table[p].level || p !in c.pins))
    ensures NothingToSend(Step(c, e))
  {
    hide ServicePins;
    match e {
      case RaiseIrq(irq) => ServiceSettles(c.(pins := c.pins + {p}), 0);
      case WriteLow(q, entry) => ServiceSettles(Stored(c, q, entry), 0);
      case WriteHigh(q, dest) => ServiceSettles(c.(table := c.table[q := c.table[q].(dest := dest)]), 0);
    }
  }

  lemma RequestAdds(l: Local, v: nat, level: bool)
    ensures SetIrq(l, v, level).irr == if v >= 16 then l.irr + {v} else l.irr
  {
    hide Deliverable;
    if v in l.irr {
      assert l.irr + {v} == l.irr;
    }
  }

  // ----- lowered lines

  ghost predicate Quiet(c: Chips, p: nat, count: nat) {
    PinsOk(c) && p < NUM_PINS && p !in c.pins && c.sent[p] == count
  }

  lemma ServiceQuiet(c: Chips, p: nat, count: nat)
    requires Quiet(c, p, count)
    ensures Quiet(ServicePins(c, 0), p, count)
  {
    ServiceSkips(c, 0, p);
    hide ServicePins;
  }

  lemma StepQuiet(c: Chips, e: Event, p: nat, count: nat)
    requires Quiet(c, p, count) && ValidEvent(e) && (e.RaiseIrq? ==> !Wires(e.irq, p))
    ensures Quiet(Step(c, e), p, count)
  {
    hide Acknowledge, LocalEoi, SetIrq, SetTpr, ServicePins, Top;
    match e {
      case RaiseIrq(irq) =>
        var q := PinOf(irq);
        if q < NUM_PINS { ServiceQuiet(c.(pins := c.pins + {q}), p, count); }
      case WriteLow(q, entry) => ServiceQuiet(Stored(c, q, entry), p, count);
      case WriteHigh(q, dest) => ServiceQuiet(c.(table := c.table[q := c.table[q].(dest := dest)]), p, count);
      case _ =>
    }
  }

  lemma {:induction false} RunQuiet(c: Chips, es: seq<Event>, p: nat, count: nat)
    requires Quiet(c, p, count) && Sound(c) && ValidRun(es) && forall e | e in es && e.RaiseIrq? :: !Wires(e.irq, p)
    ensures Quiet(Run(c, es), p, count)
    decreases |es|
  {
    if es != [] {
      StepSound(c, es[0]);
      StepQuiet(c, es[0], p, count);
      hide Step, Sound, Quiet;
      RunQuiet(Step(c, es[0]), es[1..], p, count);
    }
  }

  /** A level line that the device lowers is not sent any more, over any run that does not raise it again, even if
      the guest unmasks it; lowering an edge line takes nothing back. */
  lemma LoweredNeverSent(c: Chips, irq: nat, p: nat, es: seq<Event>)
    requires Sound(c) && Wires(irq, p) && ValidRun(es) && forall e | e in es && e.RaiseIrq? :: !Wires(e.irq, p)
    ensures Sound(Step(c, LowerIrq(irq)))
    ensures c.table[p].level ==> Run(Step(c, LowerIrq(irq)), es).sent[p] == c.sent[p]
    ensures !c.table[p].level ==> Step(c, LowerIrq(irq)) == c
  {
    StepSound(c, LowerIrq(irq));
    if c.table[p].level {
      RunQuiet(Step(c, LowerIrq(irq)), es, p, c.sent[p]);
    }
  }

  // ----- trigger modes

  /** A vector accepted, taken in service and ended: the pins are told of its end if and only if it was delivered as
      level-triggered, whatever the trigger-mode bit was before. */
  lemma EndIsBroadcastIff(c: Chips, v: nat, level: bool, p: nat)
    requires Sound(c) && 16 <= v < 256 && v != c.local.spurious && p < NUM_PINS
    requires c.local.irr == {} && c.local.isr == {} && !c.local.event && !c.local.window && !c.picEvent
    requires c.local.tpr < v / 16
    ensures var a := Step(c, LocalIrq(v, level));
            && Sound(a) && Sound(Step(a, WindowOpen(false)))
            && var r := Step(Step(a, WindowOpen(false)), Eoi);
               var told := level && c.table[p].level && c.table[p].vector == v;
               && r.ended[p] == c.ended[p] + (if told then 1 else 0)
               && r.table[p].remoteIrr == (c.table[p].remoteIrr && !told)
               && r.local.isr == {}
  {
    var a := Step(c, LocalIrq(v, level));
    var b := Step(a, WindowOpen(false));
    StepSound(c, LocalIrq(v, level));
    StepSound(a, WindowOpen(false));
    RequestedAlone(c.local, v, level);
    TakenAlone(a.local, v);
    assert Top({v}) == v;
    hide Sound, SetIrq, Acknowledge;
    assert b.local.isr == {v} && (v in b.local.tmr <==> level) && b.table == c.table && b.ended == c.ended;
    assert b.local.isr - {v} == {};
  }

  lemma RequestedAlone(l: Local, v: nat, level: bool)
    requires l.irr == {} && l.isr == {} && !l.event && !l.window && 16 <= v && l.tpr < v / 16
    ensures var r := SetIrq(l, v, level);
            && r.irr == {v} && r.isr == {} && (v in r.tmr <==> level) && r.event && r.spurious == l.spurious
            && r.tpr == l.tpr
  {
    assert {} + {v} == {v} && Top({v}) == v && Top({}) == 0;
  }

  lemma TakenAlone(l: Local, v: nat)
    requires l.irr == {v} && l.isr == {} && l.tpr < v / 16 && 16 <= v
    ensures var r := Acknowledge(l.(window := false));
            r.irr == {} && r.isr == {v} && r.tmr == l.tmr && r.spurious == l.spurious
  {
    assert {} + {v} == {v} && {v} - {v} == {} && Top({v}) == v && Top({}) == 0;
  }

  // ----- the programming of the local APIC

  ghost predicate Set(l: Local, ldr: Byte, dfr: nat, focusDisable: bool, spurious: nat) {
    l.ldr == ldr && l.dfr == dfr && l.focusDisable == focusDisable && l.spurious == spurious
  }

  lemma SetAbsorbs(ldr: Byte, dfr: nat, focusDisable: bool, spurious: nat)
    ensures Absorbs((l: Local) => Set(l, ldr, dfr, focusDisable, spurious))
  {
    hide Top, Deliverable;
  }

  lemma LocalAddresses(c: Chips, again: bool, value: nat, vector: nat, level: bool)
    requires |c.table| == |c.ended|
    ensures var l := c.local;
            && Set(EndOfInterrupt(c).local, l.ldr, l.dfr, l.focusDisable, l.spurious)
            && Set(OpenWindow(c, again).local, l.ldr, l.dfr, l.focusDisable, l.spurious)
            && Set(SetTpr(l, value), l.ldr, l.dfr, l.focusDisable, l.spurious)
            && Set(SetIrq(l, vector, level), l.ldr, l.dfr, l.focusDisable, l.spurious)
  {
    hide Top, Deliverable, ProcessorPriority;
  }

  /** The address, focus and spurious-vector registers hold what was last written. */
  lemma StepAddresses(c: Chips, e: Event)
    requires PinsOk(c) && ValidEvent(e)
    ensures var (l, r) := (c.local, Step(c, e).local);
            && (r.ldr, r.dfr) == (if e.WriteLogical? then (e.ldr, e.dfr) else (l.ldr, l.dfr))
            && (r.spurious, r.focusDisable)
               == (if e.WriteSpurious? then (e.vector, e.focusDisable) else (l.spurious, l.focusDisable))
  {
    var l := c.local;
    var inv := (r: Local) => Set(r, l.ldr, l.dfr, l.focusDisable, l.spurious);
    SetAbsorbs(l.ldr, l.dfr, l.focusDisable, l.spurious);
    hide Top, Deliverable, ServicePins, EndOfInterrupt, OpenWindow, SetTpr, SetIrq, Absorbs;
    match e {
      case LocalIrq(vector, level) => LocalAddresses(c, false, 0, vector, level);
      case WriteTpr(value) => LocalAddresses(c, false, value, 0, false);
      case Eoi => LocalAddresses(c, false, 0, 0, false);
      case WindowOpen(again) => LocalAddresses(c, again, 0, 0, false);
      case RaiseIrq(irq) =>
        var p := PinOf(irq);
        if p < NUM_PINS { ServiceLifts(inv, c.(pins := c.pins + {p}), 0); }
      case WriteLow(p, entry) => ServiceLifts(inv, Stored(c, p, entry), 0);
      case WriteHigh(p, dest) => ServiceLifts(inv, c.(table := c.table[p := c.table[p].(dest := dest)]), 0);
      case _ =>
    }
  }

  // ----- the programming of the table

  predicate SameProgram(a: Entry, b: Entry) {
    && a.vector == b.vector && a.deliveryMode == b.deliveryMode && a.logical == b.logical && a.level == b.level
    && a.masked == b.masked && a.dest == b.dest
  }

  lemma {:induction false} ServicePrograms(c: Chips, k: nat, p: nat)
    requires PinsOk(c) && k <= NUM_PINS && p < NUM_PINS
    ensures PinsOk(ServicePins(c, k)) && SameProgram(ServicePins(c, k).table[p], c.table[p])
    decreases NUM_PINS - k
  {
    if k < NUM_PINS {
      if k != p {
        TryPinFrame(c, k, p);
      }
      hide SetIrq, BusDeliver, Accepts;
      ServicePrograms(TryPin(c, k), k + 1, p);
    }
  }

  /** The entry of pin p is what the guest last wrote there: the low word programs all but the destination, the high
      word the destination, and no other step touches either. */
  lemma StepPrograms(c: Chips, e: Event, p: nat)
    requires PinsOk(c) && ValidEvent(e) && p < NUM_PINS
    ensures p < |Step(c, e).table|
    ensures SameProgram(Step(c, e).table[p],
                        if e.WriteLow? && e.pin == p then e.entry.(dest := c.table[p].dest)
                        else if e.WriteHigh? && e.pin == p then c.table[p].(dest := e.dest)
                        else c.table[p])
  {
    hide Acknowledge, LocalEoi, SetIrq, SetTpr, ServicePins, Top;
    match e {
      case RaiseIrq(irq) =>
        var q := PinOf(irq);
        if q < NUM_PINS { ServicePrograms(c.(pins := c.pins + {q}), 0, p); }
      case WriteLow(q, entry) => ServicePrograms(Stored(c, q, entry), 0, p);
      case WriteHigh(q, dest) => ServicePrograms(c.(table := c.table[q := c.table[q].(dest := dest)]), 0, p);
      case _ =>
    }
  }
}
