/**
 The local APIC, the I/O APIC and the interrupt-window flags as one state machine over their steps.

 A register of vectors or pins is a set of numbers. `stack`, `sent` and `ended` are history: the
 vectors acknowledged and not yet ended, the deliveries each pin made, and the ends broadcast to it.
 */
module ApicModel {
  import opened Bytes

  const NUM_PINS := 24
  const FIXED := 0
  const LOW_PRI := 1
  const RESERVED := 3

  /** The local APIC with its pending-event flag and the hypervisor's window request. */
  datatype Local = Local(
    irr: set<nat>, isr: set<nat>, tmr: set<nat>, tpr: nat, spurious: nat,
    ldr: Byte, dfr: nat, focusDisable: bool,
    event: bool, window: bool, stack: seq<nat>)

  /** A redirection-table entry; the destination is the top byte of the high word. */
  datatype Entry = Entry(
    vector: nat, deliveryMode: nat, logical: bool, pending: bool, remoteIrr: bool, level: bool, masked: bool,
    dest: Byte)

  datatype Chips = Chips(
    local: Local, picEvent: bool,
    pins: set<nat>, table: seq<Entry>, sent: seq<nat>, ended: seq<nat>)

  datatype Event =
    | RaiseIrq(irq: nat)
    | LowerIrq(irq: nat)
    | WriteLow(pin: nat, entry: Entry)
    | WriteHigh(pin: nat, dest: Byte)
    | LocalIrq(vector: nat, level: bool)
    | WriteTpr(value: nat)
    | WriteSpurious(vector: nat, focusDisable: bool)
    | WriteLogical(ldr: Byte, dfr: nat)
    | Eoi
    | PicRequest
    | WindowOpen(picAgain: bool)

  const RESET_ENTRY := Entry(0, FIXED, false, false, false, false, true, ZERO)

  /** ApicReset and IoApicInitialize. */
  const RESET := Chips(
    Local({}, {}, {}, 0, 0xff, ZERO, 0, false, false, false, []), false,
    {}, seq(NUM_PINS, _ => RESET_ENTRY), seq(NUM_PINS, _ => 0), seq(NUM_PINS, _ => 0))

  ghost predicate LocalOk(l: Local) {
    && (forall v | v in l.irr :: 16 <= v < 256)
    && (forall v | v in l.isr :: 16 <= v < 256)
    && l.tpr < 16 && 15 <= l.spurious < 256
  }

  ghost predicate PinsOk(c: Chips) {
    && |c.table| == |c.sent| == |c.ended| == NUM_PINS
    && (forall p | 0 <= p < NUM_PINS :: c.table[p].vector < 256)
    && (forall p | p in c.pins :: p < NUM_PINS)
  }

  ghost predicate ValidEvent(e: Event) {
    match e
    case WriteLow(pin, entry) => pin < NUM_PINS && entry.vector < 256
    case WriteHigh(pin, _) => pin < NUM_PINS
    case LocalIrq(vector, _) => vector < 256
    case WriteSpurious(vector, _) => vector < 256 && vector % 16 == 15
    case _ => true
  }

  // ---------- priorities ----------

  lemma MaxOf(s: set<nat>) returns (m: nat)
    requires s != {}
    ensures m in s && forall v | v in s :: v <= m
  {
    var x :| x in s;
    var rest := s - {x};
    if rest == {} {
      m := x;
    } else {
      var top := MaxOf(rest);
      m := if x < top then top else x;
    }
    forall v | v in s ensures v <= m {
      assert v == x || v in rest;
    }
  }

  lemma MaxExists(s: set<nat>)
    requires s != {}
    ensures exists m :: m in s && forall v | v in s :: v <= m
  {
    var m := MaxOf(s);
  }

  /** The highest vector, or 0: what scanning classes from 15 down and then bits from 15 down finds. */
  ghost function Top(s: set<nat>): (r: nat)
    ensures s == {} ==> r == 0
    ensures s != {} ==> r in s
    ensures forall v | v in s :: v <= r
  {
    if s == {} then 0
    else
      MaxExists(s);
      var m :| m in s && forall v | v in s :: v <= m;
      m
  }

  function PriorityClass(vector: nat): nat { vector / 16 }

  ghost function ProcessorPriority(l: Local): nat {
    if PriorityClass(Top(l.isr)) < l.tpr then l.tpr else PriorityClass(Top(l.isr))
  }

  ghost predicate Deliverable(l: Local) {
    PriorityClass(Top(l.irr)) > ProcessorPriority(l)
  }

  // ---------- local APIC ----------

  ghost function Service(l: Local): Local {
    if Deliverable(l) && !l.event && !l.window then l.(event := true, window := true) else l
  }

  ghost function SetIrq(l: Local, vector: nat, level: bool): Local {
    if vector <= 15 || vector in l.irr then l
    else Service(l.(irr := l.irr + {vector}, tmr := if level then l.tmr + {vector} else l.tmr - {vector}))
  }

  /** Acknowledge: deliver the top request unless the processor priority has risen above it. */
  ghost function Acknowledge(l: Local): Local {
    var v := Top(l.irr);
    if PriorityClass(v) < ProcessorPriority(l) then l.(event := false)
    else Service(l.(irr := l.irr - {v}, isr := l.isr + {v}, event := false, stack := l.stack + [v]))
  }

  /** The vector an acknowledge hands to the processor. */
  ghost function AcknowledgedVector(l: Local): nat {
    if PriorityClass(Top(l.irr)) < ProcessorPriority(l) then l.spurious else Top(l.irr)
  }

  function Last(s: seq<nat>): nat
    requires s != []
  {
    s[|s| - 1]
  }

  function DropLast(s: seq<nat>): seq<nat> {
    if s == [] then [] else s[..|s| - 1]
  }

  /** The local half of an end of interrupt: dropped while the spurious vector is the one in service. */
  ghost function LocalEoi(l: Local): Local {
    var v := Top(l.isr);
    if v == l.spurious then l
    else Service(l.(isr := l.isr - {v}, tmr := l.tmr - {v}, stack := DropLast(l.stack)))
  }

  ghost function SetTpr(l: Local, value: nat): Local {
    if value > 15 then l
    else if l.tpr > value then Service(l.(tpr := value))
    else l.(tpr := value)
  }

  predicate MatchesLogical(l: Local, dest: Byte) {
    if l.dfr == 0xf then And(dest, l.ldr) != ZERO
    else if l.dfr == 0 then
      dest == ONES || ((forall k | 4 <= k < 8 :: dest[k] == l.ldr[k]) && (exists k | 0 <= k < 4 :: dest[k] && l.ldr[k]))
    else false
  }

  // ---------- I/O APIC ----------

  /** Whether the bus accepts an entry (returns 0): fixed always does, lowest priority when it finds a
      target, the other modes never. */
  predicate Accepts(l: Local, e: Entry) {
    || e.deliveryMode == FIXED
    || (e.deliveryMode == LOW_PRI && (!e.logical || !l.focusDisable || MatchesLogical(l, e.dest)))
  }

  /** Whether an accepted entry reaches the one local APIC; the bus accepts others silently. */
  predicate Reaches(l: Local, e: Entry) {
    if !e.logical then e.dest == ZERO
    else e.deliveryMode == LOW_PRI || MatchesLogical(l, e.dest)
  }

  ghost function BusDeliver(l: Local, e: Entry): Local {
    if Accepts(l, e) && Reaches(l, e) then SetIrq(l, e.vector, e.level) else l
  }

  /** Whether pin p would be tried: not masked, and no level delivery in flight. */
  predicate Sendable(e: Entry) {
    !e.masked && !(e.level && e.remoteIrr)
  }

  /** Try to send pin p's interrupt. */
  ghost function SendPin(c: Chips, p: nat): Chips
    requires p < |c.table| == |c.sent|
  {
    var e := c.table[p];
    if !Sendable(e) then c
    else if Accepts(c.local, e) then
      c.(local := BusDeliver(c.local, e),
         table := c.table[p := e.(pending := false, remoteIrr := e.remoteIrr || e.level)],
         pins := if e.level then c.pins else c.pins - {p},
         sent := c.sent[p := c.sent[p] + 1])
    else c.(table := c.table[p := e.(pending := true)])
  }

  ghost function TryPin(c: Chips, p: nat): Chips
    requires p < |c.table| == |c.sent|
  {
    if p in c.pins then SendPin(c, p) else c
  }

  /** The pin loop: from pin p on, every requesting pin is tried. */
  ghost function ServicePins(c: Chips, p: nat): (r: Chips)
    requires p <= |c.table| == |c.sent|
    decreases |c.table| - p
  {
    if p == |c.table| then c else ServicePins(TryPin(c, p), p + 1)
  }

  /** An entry whose delivery is tried and has the mode the bus does not know. */
  predicate Fatal(e: Entry) {
    Sendable(e) && e.deliveryMode == RESERVED
  }

  /** Whether the pin loop, from pin p on, comes to such an entry and ends the process. */
  ghost predicate Exits(c: Chips, p: nat) {
    exists q :: p <= q < |c.table| && q in c.pins && Fatal(c.table[q])
  }

  /** Trying one pin changes nothing about the later ones. */
  lemma ExitsFrom(c: Chips, p: nat)
    requires p < |c.table| == |c.sent|
    ensures Exits(c, p) <==> (p in c.pins && Fatal(c.table[p])) || Exits(TryPin(c, p), p + 1)
  {
    var r := TryPin(c, p);
    assert |r.table| == |c.table|;
    assert forall q | p < q < |c.table| :: r.table[q] == c.table[q] && (q in r.pins <==> q in c.pins);
  }

  /** IRQ 0 arrives on pin 2. */
  function PinOf(irq: nat): nat { if irq == 0 then 2 else irq }

  ghost function Raise(c: Chips, irq: nat): Chips
    requires |c.table| == |c.sent|
  {
    var p := PinOf(irq);
    if p >= |c.table| || (!c.table[p].level && p in c.pins) then c
    else ServicePins(c.(pins := c.pins + {p}), 0)
  }

  function Lower(c: Chips, irq: nat): Chips {
    var p := PinOf(irq);
    if p < |c.table| && c.table[p].level then c.(pins := c.pins - {p}) else c
  }

  /** The entry after a write of its low word: an edge entry has no Remote-IRR, and the destination stays. */
  function Stored(c: Chips, p: nat, e: Entry): Chips
    requires p < |c.table|
  {
    c.(table := c.table[p := e.(dest := c.table[p].dest, remoteIrr := e.level && e.remoteIrr)])
  }

  ghost function SetLow(c: Chips, p: nat, e: Entry): Chips
    requires p < |c.table| == |c.sent|
  {
    ServicePins(Stored(c, p, e), 0)
  }

  ghost function SetHigh(c: Chips, p: nat, dest: Byte): Chips
    requires p < |c.table| == |c.sent|
  {
    ServicePins(c.(table := c.table[p := c.table[p].(dest := dest)]), 0)
  }

  predicate Ends(e: Entry, v: nat) {
    e.level && e.vector == v
  }

  /** An end of interrupt for v clears Remote-IRR on every level pin programmed with v. */
  function EndAtPins(c: Chips, v: nat): Chips
    requires |c.table| == |c.ended|
  {
    c.(table := seq(|c.table|, p requires 0 <= p < |c.table| =>
                  if Ends(c.table[p], v) then c.table[p].(remoteIrr := false) else c.table[p]),
       ended := seq(|c.table|, p requires 0 <= p < |c.table| =>
                  if Ends(c.table[p], v) then c.ended[p] + 1 else c.ended[p]))
  }

  /** An end of interrupt is passed on for level-triggered vectors. */
  ghost function EndOfInterrupt(c: Chips): Chips
    requires |c.table| == |c.ended|
  {
    var v := Top(c.local.isr);
    var passed := if v != c.local.spurious && v in c.local.tmr then EndAtPins(c, v) else c;
    passed.(local := LocalEoi(c.local))
  }

  // ---------- the whole ----------

  /** The window opens: the PIC goes first; its acknowledge may ask again at once. */
  ghost function OpenWindow(c: Chips, picAgain: bool): Chips {
    if c.picEvent then c.(picEvent := picAgain, local := c.local.(window := picAgain))
    else
      var closed := c.local.(window := false);
      c.(local := if c.local.event then Acknowledge(closed) else closed)
  }

  ghost function Step(c: Chips, e: Event): Chips
    requires PinsOk(c) && ValidEvent(e)
  {
    match e
    case RaiseIrq(irq) => Raise(c, irq)
    case LowerIrq(irq) => Lower(c, irq)
    case WriteLow(pin, entry) => SetLow(c, pin, entry)
    case WriteHigh(pin, dest) => SetHigh(c, pin, dest)
    case LocalIrq(vector, level) => c.(local := SetIrq(c.local, vector, level))
    case WriteTpr(value) => c.(local := SetTpr(c.local, value))
    case WriteSpurious(vector, focusDisable) => c.(local := c.local.(spurious := vector, focusDisable := focusDisable))
    case WriteLogical(ldr, dfr) => c.(local := c.local.(ldr := ldr, dfr := dfr))
    case Eoi => EndOfInterrupt(c)
    case PicRequest => c.(picEvent := true, local := c.local.(window := true))
    case WindowOpen(picAgain) => OpenWindow(c, picAgain)
  }
}
