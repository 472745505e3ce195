/**
 The interrupt controllers in their own form: registers of sixteen 16-bit words scanned from the top,
 the redirection table and the pending-event flags, updated in place. A word is the set of its one bits.
 */
module ApicChips {
  import opened ApicModel
  import opened Bytes

  type Word = set<nat>

  /** The vectors whose bit is set. */
  ghost function Vectors(words: seq<Word>): set<nat>
    requires |words| == 16
  {
    set v: nat | v < 256 && v % 16 in words[v / 16]
  }

  ghost predicate WordsOk(words: seq<Word>) {
    |words| == 16 && forall i, b | 0 <= i < 16 && b in words[i] :: b < 16
  }

  /** Scan a word from bit 15 down to bit 1; bit 0 and none both give 0. */
  method HighestVectorBit(word: Word) returns (i: nat)
    ensures i < 16 && (i > 0 ==> i in word)
    ensures forall b | i < b < 16 :: b !in word
  {
    i := 15;
    while i >= 1
      invariant i < 16
      invariant forall b | i < b < 16 :: b !in word
    {
      if i in word {
        return;
      }
      i := i - 1;
    }
  }

  /** Scan the words from 15 down to 1; word 0 and none both give 0. */
  method HighestPriority(register: array<Word>) returns (i: nat)
    requires register.Length == 16
    ensures i < 16 && (i > 0 ==> register[i] != {})
    ensures forall j | i < j < 16 :: register[j] == {}
  {
    i := 15;
    while i >= 1
      invariant i < 16
      invariant forall j | i < j < 16 :: register[j] == {}
    {
      if register[i] != {} {
        return;
      }
      i := i - 1;
    }
  }

  /** The two scans find the highest vector. */
  lemma ScansFindTop(words: seq<Word>, i: nat, b: nat)
    requires WordsOk(words) && i < 16 && b < 16
    requires i > 0 ==> words[i] != {}
    requires forall j | i < j < 16 :: words[j] == {}
    requires b > 0 ==> b in words[i]
    requires forall k | b < k < 16 :: k !in words[i]
    ensures Top(Vectors(words)) == b + i * 16 && PriorityClass(Top(Vectors(words))) == i
  {
    var (t, s) := (b + i * 16, Vectors(words));
    forall v | v in s ensures v <= t {
      assert v == v / 16 * 16 + v % 16;
      assert words[v / 16] != {};
    }
    if b > 0 {
      InVectors(words, i, b);
    } else if i > 0 {
      var k :| k in words[i];
      InVectors(words, i, k);
    }
    assert t / 16 == i;
  }

  lemma InVectors(words: seq<Word>, i: nat, k: nat)
    requires WordsOk(words) && i < 16 && k in words[i]
    ensures k + i * 16 in Vectors(words)
  {
    assert (k + i * 16) / 16 == i && (k + i * 16) % 16 == k;
  }

  /** Only the class of the top vector. */
  lemma ScanFindsClass(words: seq<Word>, i: nat)
    requires WordsOk(words) && i < 16
    requires i > 0 ==> words[i] != {}
    requires forall j | i < j < 16 :: words[j] == {}
    ensures PriorityClass(Top(Vectors(words))) == i
  {
    var b := Top(words[i]);
    ScansFindTop(words, i, b);
  }

  /** Setting or clearing one bit of one word adds or removes one vector. */
  lemma SetBit(words: seq<Word>, v: nat)
    requires WordsOk(words) && v < 256
    ensures WordsOk(words[v / 16 := words[v / 16] + {v % 16}])
    ensures Vectors(words[v / 16 := words[v / 16] + {v % 16}]) == Vectors(words) + {v}
    ensures WordsOk(words[v / 16 := words[v / 16] - {v % 16}])
    ensures Vectors(words[v / 16 := words[v / 16] - {v % 16}]) == Vectors(words) - {v}
  {
    forall u: nat | u != v ensures u / 16 != v / 16 || u % 16 != v % 16 {
      DistinctBits(u, v);
    }
  }

  lemma DistinctBits(u: nat, v: nat)
    requires u != v
    ensures u / 16 != v / 16 || u % 16 != v % 16
  {
  }

  class Controllers {
    // local APIC
    const irr: array<Word>
    const isr: array<Word>
    const tmr: array<Word>
    var taskPriority: nat
    var spuriousVector: nat
    var destinationLogical: Byte
    var destinationFormat: nat
    var focusDisable: bool
    // svmm_events and kvm_run
    var pendingLapic: bool
    var pendingPic: bool
    var requestWindow: bool
    // I/O APIC
    var pins: set<nat>
    const table: array<Entry>
    // the process has ended
    var halted: bool
    // history
    ghost var stack: seq<nat>
    ghost var sent: seq<nat>
    ghost var ended: seq<nat>

    ghost predicate Shape() {
      irr.Length == isr.Length == tmr.Length == 16 && table.Length == NUM_PINS && irr != isr && irr != tmr && isr != tmr
    }

    ghost predicate Consistent()
      reads this, irr, isr, tmr, table
    {
      && Shape() && WordsOk(irr[..]) && WordsOk(isr[..]) && WordsOk(tmr[..])
      && PinsOk(State())
    }

    ghost function LocalState(): Local
      reads this, irr, isr, tmr
      requires Shape()
    {
      Local(Vectors(irr[..]), Vectors(isr[..]), Vectors(tmr[..]), taskPriority, spuriousVector,
            destinationLogical, destinationFormat, focusDisable, pendingLapic, requestWindow, stack)
    }

    ghost function State(): Chips
      reads this, irr, isr, tmr, table
      requires Shape()
    {
      Chips(LocalState(), pendingPic, pins, table[..], sent, ended)
    }

    /** The reset state: every pin masked. */
    constructor ()
      ensures Consistent() && State() == RESET && !halted
      ensures fresh(irr) && fresh(isr) && fresh(tmr) && fresh(table)
    {
      irr := new Word[16](_ => {});
      isr := new Word[16](_ => {});
      tmr := new Word[16](_ => {});
      taskPriority, spuriousVector := 0, RESET.local.spurious;
      destinationLogical, destinationFormat, focusDisable := RESET.local.ldr, RESET.local.dfr, RESET.local.focusDisable;
      pendingLapic, pendingPic, requestWindow := false, false, false;
      pins, halted := {}, false;
      table := new Entry[NUM_PINS](_ => RESET_ENTRY);
      stack := [];
      sent := seq(NUM_PINS, _ => 0);
      ended := seq(NUM_PINS, _ => 0);
      new;
      assert table[..] == RESET.table;
      assert Vectors(irr[..]) == Vectors(isr[..]) == Vectors(tmr[..]) == {};
    }

    // ---------- local APIC ----------

    method GetProcessPriority() returns (ppr: nat)
      requires Consistent()
      ensures ppr == ProcessorPriority(LocalState())
    {
      ppr := HighestPriority(isr);
      ScanFindsClass(isr[..], ppr);
      if ppr < taskPriority {
        ppr := taskPriority;
      }
    }

    method ApicService()
      requires Consistent()
      modifies this`pendingLapic, this`requestWindow
      ensures Consistent() && State() == old(State()).(local := Service(old(LocalState())))
    {
      var ppr := GetProcessPriority();
      var irrPrio := HighestPriority(irr);
      ScanFindsClass(irr[..], irrPrio);
      if irrPrio > ppr {
        if pendingLapic || requestWindow {
          return;
        }
        requestWindow := true;
        pendingLapic := true;
      }
    }

    /** Set or clear a vector's bit in one register. */
    method AssignBit(register: array<Word>, v: nat, on: bool)
      requires register.Length == 16 && WordsOk(register[..]) && v < 256
      modifies register
      ensures WordsOk(register[..])
      ensures Vectors(register[..]) == if on then old(Vectors(register[..])) + {v} else old(Vectors(register[..])) - {v}
    {
      SetBit(register[..], v);
      ghost var words := register[..];
      register[v / 16] := if on then register[v / 16] + {v % 16} else register[v / 16] - {v % 16};
      assert register[..] == words[v / 16 := if on then words[v / 16] + {v % 16} else words[v / 16] - {v % 16}];
    }

    method ApicSetIrq(vector: nat, levelSensitive: bool)
      requires Consistent() && vector < 256
      modifies this`pendingLapic, this`requestWindow, irr, tmr
      ensures Consistent()
      ensures State() == old(State()).(local := SetIrq(old(LocalState()), vector, levelSensitive))
    {
      if vector <= 15 || vector % 16 in irr[vector / 16] {
        return;
      }
      AssignBit(irr, vector, true);
      AssignBit(tmr, vector, levelSensitive);
      ApicService();
    }

    /** The vector handed to the processor; the source exits when no event is pending. */
    method ApicAcknowledgeInterrupt() returns (vector: nat)
      requires Consistent() && pendingLapic
      modifies this`pendingLapic, this`requestWindow, this`stack, irr, isr
      ensures Consistent() && State() == old(State()).(local := Acknowledge(old(LocalState())))
      ensures vector == AcknowledgedVector(old(LocalState()))
    {
      var irrPrio := HighestPriority(irr);
      var ppr := GetProcessPriority();
      ScanFindsClass(irr[..], irrPrio);
      if irrPrio < ppr {
        pendingLapic := false;
        return spuriousVector;
      }
      vector := HighestVector(irr, irrPrio);
      hide Top, Vectors, WordsOk, ProcessorPriority, PriorityClass;
      TakeInService(vector);
      pendingLapic := false;
      ApicService();
    }

    /** The second scan of a register, in the word the first one found. */
    method HighestVector(register: array<Word>, prio: nat) returns (vector: nat)
      requires register.Length == 16 && WordsOk(register[..]) && prio < 16
      requires (prio > 0 ==> register[prio] != {}) && forall j | prio < j < 16 :: register[j] == {}
      ensures vector == Top(Vectors(register[..])) && vector < 256 && vector / 16 == prio
    {
      var bit := HighestVectorBit(register[prio]);
      ScansFindTop(register[..], prio, bit);
      vector := bit + prio * 16;
    }

    /** A vector moves from the request to the service register. */
    method TakeInService(vector: nat)
      requires Consistent() && vector < 256
      modifies this`stack, irr, isr
      ensures Consistent()
      ensures var l := old(LocalState());
              State() == old(State()).(
                local := l.(irr := l.irr - {vector}, isr := l.isr + {vector}, stack := l.stack + [vector]))
    {
      hide Vectors, WordsOk;
      AssignBit(irr, vector, false);
      AssignBit(isr, vector, true);
      stack := stack + [vector];
    }

    method ApicReceiveEoi()
      requires Consistent()
      modifies this`pendingLapic, this`requestWindow, this`stack, this`ended, isr, tmr, table
      ensures Consistent() && State() == EndOfInterrupt(old(State()))
    {
      var isrPrio := HighestPriority(isr);
      var vector := HighestVector(isr, isrPrio);
      assert vector % 16 in tmr[isrPrio] <==> vector in Vectors(tmr[..]);
      hide Top, Deliverable, Vectors, WordsOk;
      if vector != spuriousVector {
        AssignBit(isr, vector, false);
        if vector % 16 in tmr[isrPrio] {
          IoApicReceiveEndOfInterrupt(vector);
          AssignBit(tmr, vector, false);
        } else {
          assert Vectors(tmr[..]) - {vector} == Vectors(tmr[..]);
        }
        stack := DropLast(stack);
        ApicService();
      }
    }

    method WriteTpr(value: nat)
      requires Consistent()
      modifies this`taskPriority, this`pendingLapic, this`requestWindow
      ensures Consistent() && State() == old(State()).(local := SetTpr(old(LocalState()), value))
    {
      if value > 15 {
        return;
      }
      if taskPriority > value {
        taskPriority := value;
        ApicService();
      } else {
        taskPriority := value;
      }
    }

    // ---------- I/O APIC ----------

    method IoApicReceiveEndOfInterrupt(vector: nat)
      requires Consistent()
      modifies this`ended, table
      ensures Consistent() && State() == EndAtPins(old(State()), vector)
    {
      ghost var s := State();
      ghost var r := EndAtPins(s, vector);
      var pin := 0;
      while pin < NUM_PINS
        invariant pin <= NUM_PINS && |ended| == NUM_PINS
        invariant forall q | 0 <= q < pin :: table[q] == r.table[q] && ended[q] == r.ended[q]
        invariant forall q | pin <= q < NUM_PINS :: table[q] == s.table[q] && ended[q] == s.ended[q]
      {
        if table[pin].level && table[pin].vector == vector {
          table[pin] := table[pin].(remoteIrr := false);
          ended := ended[pin := ended[pin] + 1];
        }
        pin := pin + 1;
      }
      assert table[..] == r.table && ended == r.ended;
    }

    /** The bus: true when it refuses the delivery. Lowest priority to one APIC is fixed; the reserved mode ends
        the process. */
    method ApicBusDeliverInterrupt(e: Entry) returns (refused: bool)
      requires Consistent() && e.vector < 256
      modifies this`pendingLapic, this`requestWindow, this`halted, irr, tmr
      ensures halted <==> old(halted) || e.deliveryMode == RESERVED
      ensures Consistent() && State() == old(State()).(local := BusDeliver(old(LocalState()), e))
      ensures refused == !Accepts(old(LocalState()), e)
    {
      var mode := if !e.logical && e.deliveryMode == LOW_PRI then FIXED else e.deliveryMode;
      if mode == FIXED {
        if !e.logical {
          if e.dest == ZERO {
            ApicSetIrq(e.vector, e.level);
          }
          return false;
        }
        var matches := MatchLogicalAddress(e.dest);
        if matches {
          ApicSetIrq(e.vector, e.level);
        }
        return false;
      } else if mode == LOW_PRI {
        if !focusDisable {
          ApicSetIrq(e.vector, e.level);
          return false;
        }
        var matches := MatchLogicalAddress(e.dest);
        if matches {
          ApicSetIrq(e.vector, e.level);
          return false;
        }
        return true;
      } else if mode == RESERVED {
        halted := true;
      }
      return true;
    }

    method MatchLogicalAddress(dest: Byte) returns (matches: bool)
      requires Shape()
      ensures matches == MatchesLogical(LocalState(), dest)
    {
      if destinationFormat == 0xf {
        return And(dest, destinationLogical) != ZERO;
      } else if destinationFormat == 0 {
        if dest == ONES {
          return true;
        }
        if forall k | 4 <= k < 8 :: dest[k] == destinationLogical[k] {
          return exists k | 0 <= k < 4 :: dest[k] && destinationLogical[k];
        }
      }
      return false;
    }

    method IoApicSetIntr(p: nat)
      requires Consistent() && p < NUM_PINS
      modifies this`pendingLapic, this`requestWindow, this`pins, this`sent, this`halted, irr, tmr, table
      ensures Consistent() && State() == SendPin(old(State()), p)
      ensures halted <==> old(halted) || Fatal(old(table[p]))
    {
      if table[p].masked {
        return;
      }
      if table[p].level && table[p].remoteIrr {
        return;
      }
      hide Vectors, WordsOk, BusDeliver, Accepts, LocalOk;
      var e := table[p];
      var refused := ApicBusDeliverInterrupt(e);
      if !refused {
        MarkSent(p);
      } else {
        table[p] := table[p].(pending := true);
      }
    }

    /** The bus took the interrupt: a level pin waits for its end of interrupt, an edge pin is done. */
    method MarkSent(p: nat)
      requires Consistent() && p < NUM_PINS
      modifies this`pins, this`sent, table
      ensures Consistent()
      ensures var (s, e) := (old(State()), old(table[p]));
              State() == s.(table := s.table[p := e.(pending := false, remoteIrr := e.remoteIrr || e.level)],
                            pins := if e.level then s.pins else s.pins - {p}, sent := s.sent[p := s.sent[p] + 1])
    {
      hide Vectors, WordsOk;
      var e := table[p];
      sent := sent[p := sent[p] + 1];
      if e.level {
        table[p] := table[p].(remoteIrr := true);
      } else {
        pins := pins - {p};
      }
      table[p] := table[p].(pending := false);
      assert table[..] == old(table[..])[p := e.(pending := false, remoteIrr := e.remoteIrr || e.level)];
    }

    method IoApicService()
      requires Consistent()
      modifies this`pendingLapic, this`requestWindow, this`pins, this`sent, this`halted, irr, tmr, table
      ensures Consistent() && State() == ServicePins(old(State()), 0)
      ensures halted <==> old(halted) || Exits(old(State()), 0)
    {
      ghost var s := State();
      var pin := 0;
      while pin < NUM_PINS
        invariant pin <= NUM_PINS && Consistent()
        invariant ServicePins(State(), pin) == ServicePins(s, 0)
        invariant halted || Exits(State(), pin) <==> old(halted) || Exits(s, 0)
      {
        ExitsFrom(State(), pin);
        if pin in pins {
          IoApicSetIntr(pin);
        }
        pin := pin + 1;
      }
    }

    method IoApicRaiseIrq(irq: nat)
      requires Consistent()
      modifies this`pendingLapic, this`requestWindow, this`pins, this`sent, this`halted, irr, tmr, table
      ensures Consistent() && State() == Raise(old(State()), irq)
      ensures var (s, p) := (old(State()), PinOf(irq));
              halted <==> || old(halted)
                          || (p < NUM_PINS && (s.table[p].level || p !in s.pins) && Exits(s.(pins := s.pins + {p}), 0))
    {
      var p := if irq == 0 then 2 else irq;
      if p >= NUM_PINS {
        return;
      }
      if !table[p].level && p in pins {
        return;
      }
      pins := pins + {p};
      IoApicService();
    }

    method IoApicLowerIrq(irq: nat)
      requires Consistent()
      modifies this`pins
      ensures Consistent() && State() == Lower(old(State()), irq)
    {
      var p := if irq == 0 then 2 else irq;
      if p >= NUM_PINS {
        return;
      }
      if table[p].level {
        pins := pins - {p};
      }
    }

    method WriteLowWord(p: nat, entry: Entry)
      requires Consistent() && p < NUM_PINS && entry.vector < 256
      modifies this`pendingLapic, this`requestWindow, this`pins, this`sent, this`halted, irr, tmr, table
      ensures Consistent() && State() == SetLow(old(State()), p, entry)
      ensures halted <==> old(halted) || Exits(Stored(old(State()), p, entry), 0)
    {
      table[p] := entry.(dest := table[p].dest);
      if !table[p].level {
        table[p] := table[p].(remoteIrr := false);
      }
      assert State() == old(State()).(table := old(table[..])[
        p := entry.(dest := old(table[p]).dest, remoteIrr := entry.level && entry.remoteIrr)]);
      IoApicService();
    }

    method WriteHighWord(p: nat, dest: Byte)
      requires Consistent() && p < NUM_PINS
      modifies this`pendingLapic, this`requestWindow, this`pins, this`sent, this`halted, irr, tmr, table
      ensures Consistent() && State() == SetHigh(old(State()), p, dest)
      ensures halted <==> old(halted) || Exits(old(State()), 0)
    {
      table[p] := table[p].(dest := dest);
      assert State() == old(State()).(table := old(table[..])[p := old(table[p]).(dest := dest)]);
      IoApicService();
    }

    // ---------- the run loop's window arm ----------

    /** The PIC's own acknowledge is abstracted to whether it asks for the window again. */
    method WindowOpened(picAgain: bool)
      requires Consistent()
      modifies this`pendingLapic, this`pendingPic, this`requestWindow, this`stack, irr, isr
      ensures Consistent() && State() == OpenWindow(old(State()), picAgain)
    {
      requestWindow := false;
      if pendingPic {
        pendingPic := picAgain;
        requestWindow := picAgain;
      } else if pendingLapic {
        var vector := ApicAcknowledgeInterrupt();
      }
    }
  }
}
