/**
 The pair of 8259 interrupt controllers in fully nested mode, as a state machine: raising, lowering, masking,
 acknowledging and the non-specific end of interrupt.
 */
module PicModel {

  const CASCADE := 2
  const LINES := 8

  datatype Chip = Chip(
    mask: set<nat>, inService: set<nat>, request: set<nat>, pin: set<nat>, edgeLevel: set<nat>,
    selected: nat, priority: nat, raised: bool)

  datatype State = State(master: Chip, slave: Chip, event: bool)

  /** The lines whose bits are set in a register. */
  predicate Register(s: set<nat>) {
    forall i | i in s :: i < LINES
  }

  predicate Shape(c: Chip) {
    && Register(c.mask) && Register(c.inService) && Register(c.request) && Register(c.pin) && Register(c.edgeLevel)
    && c.priority < LINES
  }

  predicate Eligible(c: Chip, irq: nat) {
    irq <= c.priority && irq !in c.mask && irq !in c.inService && irq in c.request
  }

  /** The first eligible line from irq on, or the line behind the current priority. */
  function Scan(c: Chip, irq: nat): (r: nat)
    requires irq <= c.priority + 1
    ensures irq <= r <= c.priority + 1 && (r <= c.priority ==> Eligible(c, r))
    ensures forall e | irq <= e < r :: !Eligible(c, e)
    decreases c.priority + 1 - irq
  {
    if irq == c.priority + 1 || Eligible(c, irq) then irq else Scan(c, irq + 1)
  }

  function Select(c: Chip, irq: nat): Chip {
    c.(raised := true, selected := irq)
  }

  function ServiceMaster(s: State): State {
    var irq := Scan(s.master, 0);
    if irq == s.master.priority + 1 then s
    else s.(master := Select(s.master, irq), event := true)
  }

  function Assert(c: Chip, irq: nat): Chip {
    c.(pin := c.pin + {irq}, request := c.request + {irq})
  }

  function RaiseMaster(s: State, irq: nat): State {
    if irq in s.master.pin then s
    else ServiceMaster(s.(master := Assert(s.master, irq)))
  }

  function ServiceSlave(s: State): State {
    var irq := Scan(s.slave, 0);
    if irq == s.slave.priority + 1 then s
    else RaiseMaster(s.(slave := Select(s.slave, irq)), CASCADE)
  }

  /** PicService, by chip. */
  function Service(s: State, slave: bool): State {
    if slave then ServiceSlave(s) else ServiceMaster(s)
  }

  /** PicRaiseIrq. */
  function Raise(s: State, n: nat): State {
    if n > 15 then s
    else if n < LINES then RaiseMaster(s, n)
    else if n - LINES in s.slave.pin then s
    else ServiceSlave(s.(slave := Assert(s.slave, n - LINES)))
  }

  /** PicLowerIrq: the slave's lines are not lowered. */
  function Lower(s: State, n: nat): State {
    if n >= LINES || n !in s.master.pin then s
    else s.(master := s.master.(pin := s.master.pin - {n}, request := s.master.request - {n}))
  }

  /** A chip takes its selected line in service. */
  function Accept(c: Chip): Chip {
    c.(raised := false, request := if c.selected in c.edgeLevel then c.request else c.request - {c.selected},
       priority := c.selected, inService := c.inService + {c.selected})
  }

  /** PicIAC without the vector. */
  function Acknowledge(s: State): State {
    if s.master.selected != CASCADE then
      ServiceMaster(s.(master := Accept(s.master), event := false))
    else
      var m := s.master;
      var passed := m.(raised := false, pin := m.pin - {CASCADE},
                       request := if CASCADE in m.edgeLevel then m.request else m.request - {CASCADE});
      ServiceMaster(ServiceSlave(State(passed, Accept(s.slave), false)))
  }

  function SetMask(s: State, slave: bool, mask: set<nat>): State {
    Service(if slave then s.(slave := s.slave.(mask := mask)) else s.(master := s.master.(mask := mask)), slave)
  }

  /** The line in service that the non-specific end of interrupt finds, at irq or below, or 8. */
  function InServiceBelow(c: Chip, irq: nat): (r: nat)
    ensures r != LINES ==> r <= irq && r in c.inService
    ensures forall e | e in c.inService && e <= irq && irq < LINES :: r != LINES && e <= r
  {
    if irq < LINES && irq in c.inService then irq else if irq == 0 then LINES else InServiceBelow(c, irq - 1)
  }

  function Retire(c: Chip): Chip {
    var irq := InServiceBelow(c, c.priority);
    if irq == LINES then c else c.(inService := c.inService - {irq}, priority := 7)
  }

  /** OCW2 non-specific end of interrupt. */
  function EndOfInterrupt(s: State, slave: bool): State {
    Service(if slave then s.(slave := Retire(s.slave)) else s.(master := Retire(s.master)), slave)
  }

  datatype Event = RaiseIrq(n: nat) | LowerIrq(n: nat) | WriteMask(slave: bool, mask: set<nat>) | Iac | Eoi(slave: bool)

  /** Devices leave the cascade line alone, mask registers have eight bits, and the processor acknowledges only
      when the event is pending. */
  predicate Enabled(s: State, e: Event) {
    match e
    case RaiseIrq(n) => n != CASCADE
    case LowerIrq(n) => n != CASCADE
    case WriteMask(_, mask) => Register(mask)
    case Iac => s.event
    case Eoi(_) => true
  }

  function Step(s: State, e: Event): State {
    match e
    case RaiseIrq(n) => Raise(s, n)
    case LowerIrq(n) => Lower(s, n)
    case WriteMask(slave, mask) => SetMask(s, slave, mask)
    case Iac => Acknowledge(s)
    case Eoi(slave) => EndOfInterrupt(s, slave)
  }

  const ALL_LINES: set<nat> := set i: nat | i < LINES

  /** The line number the chip's vector register stands for. */
  function LineOf(vector: nat, offset: nat): nat
    requires vector < 0x100 && offset < 0x100
  {
    (vector + 0x100 - offset) % 0x100
  }

  /** And the vector of a line. */
  function VectorOf(line: nat, offset: nat): nat {
    (offset + line) % 0x100
  }

  lemma VectorOfLine(vector: nat, offset: nat)
    requires vector < 0x100 && offset < 0x100
    ensures VectorOf(LineOf(vector, offset), offset) == vector
  {
  }

  const MASTER_OFFSET := 0x08
  const SLAVE_OFFSET := 0x70

  function ResetChip(offset: nat): Chip
    requires offset < 0x100
  {
    Chip(ALL_LINES, {}, {}, {}, {}, LineOf(0, offset), 7, false)
  }

  /** PicInitialize, in fully nested mode. */
  const INITIAL := State(ResetChip(MASTER_OFFSET), ResetChip(SLAVE_OFFSET), false)

  // ----- Invariants

  /** The selected line could be taken in service. */
  predicate Selectable(c: Chip) {
    c.selected <= c.priority && c.selected !in c.inService
  }

  /** Every eligible request of the chip is no more urgent than the selected line. */
  ghost predicate Served(c: Chip) {
    forall e | Eligible(c, e) :: c.selected <= e
  }

  /** What every step keeps: the pending event is for a line that could be taken, and the cascade line is
      requested for a slave line that could be; an eligible request has been passed on, and what was passed on is
      the most urgent one. */
  ghost predicate Coherent(s: State) {
    && Shape(s.master) && Shape(s.slave)
    && CASCADE !in s.master.edgeLevel && CASCADE !in s.master.inService
    && (CASCADE in s.master.pin <==> CASCADE in s.master.request)
    && (s.event ==> Selectable(s.master) && (s.master.selected == CASCADE ==> CASCADE in s.master.request))
    && s.slave.request <= s.slave.pin
    && (CASCADE in s.master.request ==> Selectable(s.slave) && s.slave.selected in s.slave.request)
  }

  ghost predicate Sound(s: State) {
    Coherent(s) && MasterServed(s) && SlaveServed(s)
  }

  ghost predicate MasterServed(s: State) {
    Served(s.master) && forall e | Eligible(s.master, e) :: s.event
  }

  ghost predicate SlaveServed(s: State) {
    Served(s.slave) && forall e | Eligible(s.slave, e) :: CASCADE in s.master.request
  }

  /** The most urgent line in service is the current priority. */
  ghost predicate Nested(c: Chip) {
    if c.inService == {} then c.priority == 7
    else c.priority in c.inService && forall e | e in c.inService :: c.priority <= e
  }
}
