/**
 What every step of the interrupt protocol keeps, and what therefore holds over whole runs.
 */
module ApicInvariants {
  import opened ApicModel
  import opened Bytes

  // ---------- lifting from the local APIC to the pin loop ----------

  /** A property of the local APIC that taking in a vector keeps. */
  ghost predicate Absorbs(inv: Local -> bool) {
    forall l: Local, v: nat, level: bool | inv(l) && v < 256 :: inv(SetIrq(l, v, level))
  }

  lemma TryPinLifts(inv: Local -> bool, c: Chips, p: nat)
    requires Absorbs(inv) && inv(c.local) && PinsOk(c) && p < NUM_PINS
    ensures inv(TryPin(c, p).local) && PinsOk(TryPin(c, p))
  {
    hide Top, Accepts, Reaches, SetIrq;
    var e := c.table[p];
    assert inv(SetIrq(c.local, e.vector, e.level));
  }

  lemma {:induction false} ServiceLifts(inv: Local -> bool, c: Chips, p: nat)
    requires Absorbs(inv) && inv(c.local) && PinsOk(c) && p <= NUM_PINS
    ensures inv(ServicePins(c, p).local) && PinsOk(ServicePins(c, p))
    ensures ServicePins(c, p).picEvent == c.picEvent
    decreases NUM_PINS - p
  {
    hide Absorbs;
    if p < NUM_PINS {
      TryPinLifts(inv, c, p);
      ServiceLifts(inv, TryPin(c, p), p + 1);
    }
  }

  /** Properties of the local APIC that the steps not involving the window keep. */
  ghost predicate Kept(inv: Local -> bool) {
    && Absorbs(inv)
    && (forall l: Local, value: nat | inv(l) :: inv(SetTpr(l, value)))
    && (forall l: Local, v: nat, focus: bool | inv(l) && v < 256 && v % 16 == 15 ::
          inv(l.(spurious := v, focusDisable := focus)))
    && (forall l: Local, ldr: Byte, dfr: nat | inv(l) :: inv(l.(ldr := ldr, dfr := dfr)))
    && (forall l: Local | inv(l) :: inv(LocalEoi(l)))
  }

  predicate Windowless(e: Event) {
    !e.PicRequest? && !e.WindowOpen?
  }

  lemma StepLifts(inv: Local -> bool, c: Chips, e: Event)
    requires Kept(inv) && inv(c.local) && PinsOk(c) && ValidEvent(e) && Windowless(e)
    ensures inv(Step(c, e).local) && PinsOk(Step(c, e)) && Step(c, e).picEvent == c.picEvent
  {
    hide Top, SetIrq, SetTpr, LocalEoi;
    match e {
      case RaiseIrq(irq) =>
        var p := PinOf(irq);
        if p < NUM_PINS { ServiceLifts(inv, c.(pins := c.pins + {p}), 0); }
      case WriteLow(p, entry) =>
        var stored := entry.(dest := c.table[p].dest, remoteIrr := entry.level && entry.remoteIrr);
        ServiceLifts(inv, c.(table := c.table[p := stored]), 0);
      case WriteHigh(p, dest) =>
        ServiceLifts(inv, c.(table := c.table[p := c.table[p].(dest := dest)]), 0);
      case _ =>
    }
  }

  // ---------- the in-service stack ----------

  /** The invariant that needs no assumption on the run: a pending event means the top request
      outranks the top service, and the service register is a stack of rising priority classes. */
  ghost predicate StackOrdered(l: Local) {
    && LocalOk(l)
    && (l.event ==> PriorityClass(Top(l.irr)) > PriorityClass(Top(l.isr)))
    && (forall v: nat :: v in l.isr <==> v in l.stack)
    && (forall i, j | 0 <= i < j < |l.stack| :: PriorityClass(l.stack[i]) < PriorityClass(l.stack[j]))
  }

  lemma TopIsLast(l: Local)
    requires StackOrdered(l)
    ensures Top(l.isr) == if l.stack == [] then 0 else Last(l.stack)
  {
    if l.stack != [] {
      var last := Last(l.stack);
      assert last in l.isr;
      var i :| 0 <= i < |l.stack| && l.stack[i] == Top(l.isr);
      if i < |l.stack| - 1 {
        assert PriorityClass(l.stack[i]) < PriorityClass(last);
      }
    }
  }

  lemma TopGrows(s: set<nat>, t: set<nat>)
    requires s <= t
    ensures Top(s) <= Top(t)
  {
  }

  lemma ServiceOrdered(l: Local)
    requires StackOrdered(l.(event := false))
    requires l.event ==> PriorityClass(Top(l.irr)) > PriorityClass(Top(l.isr))
    ensures StackOrdered(Service(l))
  {
  }

  lemma SetIrqOrdered(l: Local, v: nat, level: bool)
    requires StackOrdered(l) && v < 256
    ensures StackOrdered(SetIrq(l, v, level))
  {
    TopGrows(l.irr, l.irr + {v});
    hide Top, Deliverable;
    if 15 < v && v !in l.irr {
      ServiceOrdered(l.(irr := l.irr + {v}, tmr := if level then l.tmr + {v} else l.tmr - {v}));
    }
  }

  lemma LocalEoiOrdered(l: Local)
    requires StackOrdered(l)
    ensures StackOrdered(LocalEoi(l))
  {
    var v := Top(l.isr);
    TopIsLast(l);
    if v != l.spurious {
      PopMembers(l);
      TopGrows(l.isr - {v}, l.isr);
      hide Top, Deliverable;
      var popped := l.(isr := l.isr - {v}, tmr := l.tmr - {v}, stack := DropLast(l.stack));
      ServiceOrdered(popped);
    }
  }

  lemma PopMembers(l: Local)
    requires StackOrdered(l)
    ensures forall u: nat :: u in l.isr - {Top(l.isr)} <==> u in DropLast(l.stack)
  {
    TopIsLast(l);
    var rest := DropLast(l.stack);
    if l.stack != [] {
      assert l.stack == rest + [Last(l.stack)];
      forall i | 0 <= i < |rest| ensures rest[i] != Last(l.stack) {
        assert PriorityClass(l.stack[i]) < PriorityClass(Last(l.stack));
      }
    }
  }

  /** An acknowledge pushes a vector of a strictly higher class than everything in service. */
  lemma AcknowledgeOrdered(l: Local)
    requires StackOrdered(l) && l.event
    ensures StackOrdered(Acknowledge(l))
  {
    var v := Top(l.irr);
    TopIsLast(l);
    if PriorityClass(v) >= ProcessorPriority(l) {
      forall i | 0 <= i < |l.stack| ensures PriorityClass(l.stack[i]) < PriorityClass(v) {
        assert l.stack[i] in l.isr;
      }
      var pushed := l.(irr := l.irr - {v}, isr := l.isr + {v}, event := false, stack := l.stack + [v]);
      hide Top, Deliverable;
      ServiceOrdered(pushed);
    }
  }

  lemma SetTprOrdered(l: Local, value: nat)
    requires StackOrdered(l)
    ensures StackOrdered(SetTpr(l, value))
  {
    hide Top, Deliverable;
    if value <= 15 { ServiceOrdered(l.(tpr := value)); }
  }

  ghost predicate Sound(c: Chips) {
    PinsOk(c) && StackOrdered(c.local)
  }

  lemma ResetSound()
    ensures Sound(RESET) && Awake(RESET.local) && Covered(RESET)
  {
  }

  lemma StackOrderedKept()
    ensures Kept((l: Local) => StackOrdered(l))
  {
    var inv := (l: Local) => StackOrdered(l);
    forall l: Local, v: nat, level: bool | inv(l) && v < 256 ensures inv(SetIrq(l, v, level)) {
      SetIrqOrdered(l, v, level);
    }
    forall l: Local | inv(l) ensures inv(LocalEoi(l)) {
      LocalEoiOrdered(l);
    }
    forall l: Local, value: nat | inv(l) ensures inv(SetTpr(l, value)) {
      SetTprOrdered(l, value);
    }
    hide Top, Deliverable, SetIrq, LocalEoi, SetTpr;
  }

  lemma StepSound(c: Chips, e: Event)
    requires Sound(c) && ValidEvent(e)
    ensures Sound(Step(c, e))
  {
    hide Top, Deliverable;
    if Windowless(e) {
      StackOrderedKept();
      hide StackOrdered;
      StepLifts((l: Local) => StackOrdered(l), c, e);
    } else if e.WindowOpen? && !c.picEvent && c.local.event {
      AcknowledgeOrdered(c.local.(window := false));
    }
  }

  // ---------- runs ----------

  ghost predicate ValidRun(es: seq<Event>) {
    forall e | e in es :: ValidEvent(e)
  }

  ghost function Run(c: Chips, es: seq<Event>): (r: Chips)
    requires Sound(c) && ValidRun(es)
    ensures Sound(r)
    decreases |es|
  {
    if es == [] then c
    else
      StepSound(c, es[0]);
      Run(Step(c, es[0]), es[1..])
  }

  /** In every reachable state a pending event means the top request outranks the top service, each
      priority class has at most one vector in service, and what is in service is the stack. */
  lemma {:induction false} RunIsStack(c: Chips, es: seq<Event>)
    requires Sound(c) && ValidRun(es)
    ensures var r := Run(c, es);
            && Sound(r)
            && (r.local.event ==> PriorityClass(Top(r.local.irr)) > PriorityClass(Top(r.local.isr)))
            && (forall u, v | u in r.local.isr && v in r.local.isr && PriorityClass(u) == PriorityClass(v) :: u == v)
    decreases |es|
  {
    if es == [] {
      forall u, v | u in c.local.isr && v in c.local.isr && PriorityClass(u) == PriorityClass(v) ensures u == v {
        assert u in c.local.stack && v in c.local.stack;
      }
    } else {
      StepSound(c, es[0]);
      RunIsStack(Step(c, es[0]), es[1..]);
    }
  }

  /** Opening the window on a LAPIC event that is still deliverable moves the top request onto the
      stack, above everything in service; otherwise the processor gets the spurious vector and
      nothing is put in service. */
  lemma AcknowledgePushes(c: Chips)
    requires Sound(c) && c.local.event && !c.picEvent
    ensures var (l, r) := (c.local, Step(c, WindowOpen(false)).local);
            var v := Top(l.irr);
            if PriorityClass(v) < ProcessorPriority(l)
            then r.isr == l.isr && r.stack == l.stack && AcknowledgedVector(l) == l.spurious
            else && v in l.irr && AcknowledgedVector(l) == v
                 && r.irr == l.irr - {v} && r.isr == l.isr + {v} && r.stack == l.stack + [v]
                 && forall u | u in l.isr :: PriorityClass(u) < PriorityClass(v)
  {
    assert PriorityClass(Top(c.local.irr)) > 0;
  }

  /** An end of interrupt takes exactly the last acknowledged vector out of service, unless that is
      the spurious vector, in which case it changes nothing in service. */
  lemma EoiPopsLast(c: Chips)
    requires Sound(c) && c.local.stack != []
    ensures var (l, r) := (c.local, Step(c, Eoi).local);
            if Last(l.stack) == l.spurious then r.isr == l.isr && r.stack == l.stack
            else r.isr == l.isr - {Last(l.stack)} && l.stack == r.stack + [Last(l.stack)]
  {
    TopIsLast(c.local);
  }

  // ---------- no lost wakeup ----------

  /** Window requested exactly while an event is pending, and an event pending whenever deliverable. */
  ghost predicate Awake(l: Local) {
    l.event == l.window && (Deliverable(l) ==> l.event)
  }

  lemma AwakeKept()
    ensures Kept((l: Local) => Awake(l))
  {
    var inv := (l: Local) => Awake(l);
    forall l: Local, value: nat | inv(l) ensures inv(SetTpr(l, value)) {
    }
    forall l: Local, ldr: Byte, dfr: nat | inv(l) ensures inv(l.(ldr := ldr, dfr := dfr)) {
    }
  }

  lemma AcknowledgeAwake(l: Local)
    requires l.event
    ensures Awake(Acknowledge(l.(window := false)))
  {
  }

  /** With the PIC never asking for the window, over any run of raises, table and TPR writes, ends of
      interrupt and window openings, no wakeup is lost: a deliverable request is always pending, and
      the window is requested exactly then. */
  lemma {:induction false} NoLostWakeup(c: Chips, es: seq<Event>)
    requires Sound(c) && ValidRun(es) && Awake(c.local) && !c.picEvent
    requires forall e | e in es :: !e.PicRequest?
    ensures Awake(Run(c, es).local)
    decreases |es|
  {
    if es != [] {
      var e := es[0];
      StepSound(c, e);
      if Windowless(e) {
        AwakeKept();
        StepLifts((l: Local) => Awake(l), c, e);
      } else if c.local.event {
        AcknowledgeAwake(c.local);
      }
      NoLostWakeup(Step(c, e), es[1..]);
    }
  }

  // ---------- the window shared with the PIC ----------

  /** What the local APIC sees of the window, given whether the PIC waits for it. */
  ghost predicate WindowCovers(l: Local, picEvent: bool) {
    && (Deliverable(l) || l.event ==> l.window)
    && (l.window ==> picEvent || l.event)
    && (picEvent ==> l.window)
  }

  /** Whoever waits has the window requested, and the window is requested for someone who waits. */
  ghost predicate Covered(c: Chips) {
    WindowCovers(c.local, c.picEvent)
  }

  /** The window opens for the PIC, which does not ask again, while the local APIC has something to deliver. */
  ghost predicate LosesWakeup(c: Chips, e: Event) {
    e.WindowOpen? && c.picEvent && !e.picAgain && (Deliverable(c.local) || c.local.event)
  }

  lemma CoverKept(picEvent: bool)
    ensures Kept((l: Local) => WindowCovers(l, picEvent))
  {
    var inv := (l: Local) => WindowCovers(l, picEvent);
    forall l: Local, v: nat, level: bool | inv(l) && v < 256 ensures inv(SetIrq(l, v, level)) {
    }
    forall l: Local, value: nat | inv(l) ensures inv(SetTpr(l, value)) {
    }
    forall l: Local, v: nat, focus: bool | inv(l) && v < 256 && v % 16 == 15
      ensures inv(l.(spurious := v, focusDisable := focus)) {
    }
    forall l: Local, ldr: Byte, dfr: nat | inv(l) ensures inv(l.(ldr := ldr, dfr := dfr)) {
    }
    forall l: Local | inv(l) ensures inv(LocalEoi(l)) {
    }
  }

  /** With PIC requests allowed, a step loses the wakeup exactly when the PIC takes the window from a local
      APIC that has something to deliver. */
  lemma StepCoversIff(c: Chips, e: Event)
    requires Sound(c) && Covered(c) && ValidEvent(e)
    ensures Covered(Step(c, e)) <==> !LosesWakeup(c, e)
  {
    if Windowless(e) {
      CoverKept(c.picEvent);
      hide Deliverable;
      StepLifts((l: Local) => WindowCovers(l, c.picEvent), c, e);
    } else if e.WindowOpen? && !c.picEvent && c.local.event {
      AcknowledgeAwake(c.local);
    }
  }

  ghost predicate CoveredThroughout(c: Chips, es: seq<Event>)
    requires Sound(c) && ValidRun(es)
    decreases |es|
  {
    Covered(c) && (es == [] || (StepSound(c, es[0]); CoveredThroughout(Step(c, es[0]), es[1..])))
  }

  ghost predicate LosesNowhere(c: Chips, es: seq<Event>)
    requires Sound(c) && ValidRun(es)
    decreases |es|
  {
    es == [] || (!LosesWakeup(c, es[0]) && (StepSound(c, es[0]); LosesNowhere(Step(c, es[0]), es[1..])))
  }

  /** Over any run, PIC requests included, no wakeup is lost at any step boundary if and only if no step takes
      the window away in that way. */
  lemma {:induction false} RunCoversIff(c: Chips, es: seq<Event>)
    requires Sound(c) && ValidRun(es) && Covered(c)
    ensures CoveredThroughout(c, es) <==> LosesNowhere(c, es)
    decreases |es|
  {
    if es != [] {
      StepSound(c, es[0]);
      StepCoversIff(c, es[0]);
      hide Step, Sound, Covered, LosesWakeup;
      if !LosesWakeup(c, es[0]) {
        RunCoversIff(Step(c, es[0]), es[1..]);
      }
    }
  }

  /** A LAPIC event left behind by a PIC acknowledge stays without a window request, whatever happens
      short of another PIC request: the service routine sees the event pending and asks for nothing. */
  lemma {:induction false} StrandedEvent(c: Chips, es: seq<Event>)
    requires Sound(c) && ValidRun(es) && c.local.event && !c.local.window
    requires forall e | e in es :: Windowless(e)
    ensures Run(c, es).local.event && !Run(c, es).local.window
    decreases |es|
  {
    if es != [] {
      StrandedKept();
      StepSound(c, es[0]);
      StepLifts((l: Local) => l.event && !l.window, c, es[0]);
      StrandedEvent(Step(c, es[0]), es[1..]);
    }
  }

  lemma StrandedKept()
    ensures Kept((l: Local) => l.event && !l.window)
  {
  }

  /** Three steps from any quiet state reach such a stranded event: a LAPIC vector, a PIC request, an
      opened window. */
  lemma PicStrandsLapic(c: Chips, v: nat)
    requires Sound(c) && !c.local.event && !c.local.window && !c.picEvent && c.local.irr == {}
    requires 16 <= v < 256 && PriorityClass(v) > ProcessorPriority(c.local)
    ensures var pending := Step(c, LocalIrq(v, false));
            var both := Step(pending, PicRequest);
            var r := Step(both, WindowOpen(false)).local;
            Deliverable(r) && r.event && !r.window
  {
    assert c.local.irr + {v} == {v} && Top({v}) == v;
  }
}
