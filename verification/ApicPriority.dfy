/**
 What the task priority and the vectors in service hold back, in terms of the registers and the classes of their
 vectors alone.
 */
module ApicPriority {
  import opened ApicInvariants
  import opened ApicModel
  import opened Bytes

  /** A request of a class above the task priority and above every class in service. */
  ghost predicate Waiting(l: Local) {
    exists v :: v in l.irr && v / 16 > l.tpr && forall u | u in l.isr :: v / 16 > u / 16
  }

  lemma DeliverableIff(l: Local)
    ensures Deliverable(l) <==> Waiting(l)
  {
    var (v, s) := (Top(l.irr), Top(l.isr));
    if Deliverable(l) {
      assert v in l.irr && v / 16 > l.tpr && forall u | u in l.isr :: v / 16 > u / 16;
    }
  }

  // ----- the event

  ghost predicate EventWaits(l: Local) {
    l.event ==> Waiting(l)
  }

  lemma SetIrqWaits(l: Local, v: nat, level: bool)
    requires EventWaits(l)
    ensures EventWaits(SetIrq(l, v, level))
  {
    var r := SetIrq(l, v, level);
    hide Top, Deliverable;
    if v > 15 && v !in l.irr {
      var m := l.(irr := l.irr + {v}, tmr := if level then l.tmr + {v} else l.tmr - {v});
      DeliverableIff(m);
      if l.event {
        var w :| w in l.irr && w / 16 > l.tpr && forall u | u in l.isr :: w / 16 > u / 16;
        assert w in r.irr;
      }
    }
  }

  lemma WaitsAbsorbs()
    ensures Absorbs((l: Local) => EventWaits(l))
  {
    forall l: Local, v: nat, level: bool | EventWaits(l) && v < 256
      ensures EventWaits(SetIrq(l, v, level))
    {
      SetIrqWaits(l, v, level);
    }
    hide SetIrq, EventWaits;
  }

  lemma ServiceWaits(l: Local)
    requires !l.event
    ensures EventWaits(ApicModel.Service(l))
  {
    DeliverableIff(l);
    hide Deliverable;
  }

  /** A step that newly sets the event leaves a request above the task priority and above everything in service. */
  lemma NewEventWaits(c: Chips, e: Event)
    requires PinsOk(c) && ValidEvent(e) && !c.local.event && Step(c, e).local.event
    ensures Waiting(Step(c, e).local)
  {
    var inv := (l: Local) => EventWaits(l);
    WaitsAbsorbs();
    hide Top, Deliverable, Waiting, ServicePins, SetIrq;
    match e {
      case RaiseIrq(irq) =>
        var p := PinOf(irq);
        if p < NUM_PINS { ServiceLifts(inv, c.(pins := c.pins + {p}), 0); }
      case WriteLow(p, entry) => ServiceLifts(inv, Stored(c, p, entry), 0);
      case WriteHigh(p, dest) => ServiceLifts(inv, c.(table := c.table[p := c.table[p].(dest := dest)]), 0);
      case LocalIrq(v, level) => SetIrqWaits(c.local, v, level);
      case WriteTpr(value) => ServiceWaits(c.local.(tpr := value));
      case Eoi =>
        var v := Top(c.local.isr);
        ServiceWaits(c.local.(isr := c.local.isr - {v}, tmr := c.local.tmr - {v}, stack := DropLast(c.local.stack)));
      case _ =>
    }
  }

  /** Without PIC requests the converse holds over every run: while such a request waits, the event is pending and
      the window is requested. */
  lemma WaitingIsPending(c: Chips, es: seq<Event>)
    requires Sound(c) && ValidRun(es) && Awake(c.local) && !c.picEvent && forall e | e in es :: !e.PicRequest?
    ensures var r := Run(c, es).local; Waiting(r) ==> r.event && r.window
  {
    NoLostWakeup(c, es);
    DeliverableIff(Run(c, es).local);
  }

  // ----- what enters service

  ghost predicate Frozen(l: Local, isr: set<nat>, tpr: nat) {
    l.isr == isr && l.tpr == tpr
  }

  lemma FrozenAbsorbs(isr: set<nat>, tpr: nat)
    ensures Absorbs((l: Local) => Frozen(l, isr, tpr))
  {
    hide Top, Deliverable;
  }

  /** v is taken in service: the highest request, no class below the task priority, above every class in service. */
  ghost predicate Enters(l: Local, r: Local, v: nat) {
    && v in l.irr && (forall u | u in l.irr :: u <= v) && v / 16 >= l.tpr && (forall u | u in l.isr :: u / 16 < v / 16)
    && r.isr == l.isr + {v} && r.irr == l.irr - {v}
  }

  /** v leaves service: it is the highest one there. */
  ghost predicate Leaves(l: Local, r: Local, v: nat) {
    v in l.isr && (forall u | u in l.isr :: u <= v) && r.isr == l.isr - {v}
  }

  lemma OpenWindowServes(c: Chips, again: bool)
    requires Sound(c)
    ensures var (l, r) := (c.local, OpenWindow(c, again).local);
            r.tpr == l.tpr && (r.isr == l.isr || exists v :: Enters(l, r, v))
  {
    var (l, r) := (c.local, OpenWindow(c, again).local);
    var v := Top(l.irr);
    if !c.picEvent && l.event && v / 16 >= ProcessorPriority(l) {
      assert forall u | u in l.isr :: u <= Top(l.isr);
      hide Top;
      assert v / 16 > Top(l.isr) / 16;
      assert Enters(l, r, v);
    }
  }

  lemma EoiServes(c: Chips)
    requires Sound(c)
    ensures var (l, r) := (c.local, EndOfInterrupt(c).local);
            r.tpr == l.tpr && (r.isr == l.isr || exists v :: Leaves(l, r, v))
  {
    var (l, r) := (c.local, EndOfInterrupt(c).local);
    var v := Top(l.isr);
    if l.isr == {} {
      assert l.isr - {v} == {};
    } else if v != l.spurious {
      hide Top, Deliverable;
      assert Leaves(l, r, v);
    }
  }

  /** The only step that puts a vector in service is the opened window, and it takes the highest request, never one
      of a class below the task priority; the only step that takes one out is the end of interrupt. */
  lemma StepServes(c: Chips, e: Event)
    requires Sound(c) && ValidEvent(e)
    ensures var (l, r) := (c.local, Step(c, e).local);
            || r.isr == l.isr
            || (e.WindowOpen? && exists v :: Enters(l, r, v))
            || (e.Eoi? && exists v :: Leaves(l, r, v))
    ensures Step(c, e).local.tpr == if e.WriteTpr? && e.value <= 15 then e.value else c.local.tpr
  {
    var inv := (l: Local) => Frozen(l, c.local.isr, c.local.tpr);
    FrozenAbsorbs(c.local.isr, c.local.tpr);
    hide Top, Deliverable, ServicePins, Enters, Leaves, EndOfInterrupt, OpenWindow;
    match e {
      case RaiseIrq(irq) =>
        var p := PinOf(irq);
        if p < NUM_PINS { ServiceLifts(inv, c.(pins := c.pins + {p}), 0); }
      case WriteLow(p, entry) => ServiceLifts(inv, Stored(c, p, entry), 0);
      case WriteHigh(p, dest) => ServiceLifts(inv, c.(table := c.table[p := c.table[p].(dest := dest)]), 0);
      case WindowOpen(again) => OpenWindowServes(c, again);
      case Eoi => EoiServes(c);
      case _ =>
    }
  }

  /** So while the task priority stays as it is, no vector of a lower class enters service, whatever is raised,
      over any run. */
  lemma {:induction false} TaskPriorityHoldsBack(c: Chips, es: seq<Event>, v: nat)
    requires Sound(c) && ValidRun(es) && v / 16 < c.local.tpr && forall e | e in es :: !e.WriteTpr?
    ensures v in Run(c, es).local.isr ==> v in c.local.isr
    decreases |es|
  {
    if es != [] {
      StepSound(c, es[0]);
      StepServes(c, es[0]);
      hide Step, Sound;
      TaskPriorityHoldsBack(Step(c, es[0]), es[1..], v);
    }
  }
}
