/**
 The two 8259 chips as objects whose registers the handlers update, proved against the state machine.
 */
module Pic {
  import opened PicModel
  import PicRuns

  class Chip8259 {
    const currentOffset: nat
    const master: bool

    var interruptMask: set<nat>
    var interruptInService: set<nat>
    var interruptRequest: set<nat>
    var interruptPin: set<nat>
    var edgeLevel: set<nat>
    var interruptNumber: nat
    var currentPriority: nat
    var raised: bool

    constructor (master: bool)
      ensures this.master == master && Valid() && currentOffset == if master then MASTER_OFFSET else SLAVE_OFFSET
      ensures View() == ResetChip(currentOffset)
    {
      this.master := master;
      currentOffset := if master then MASTER_OFFSET else SLAVE_OFFSET;
      interruptMask := ALL_LINES;
      interruptInService, interruptRequest, interruptPin, edgeLevel := {}, {}, {}, {};
      interruptNumber := 0;
      currentPriority := 7;
      raised := false;
    }

    ghost predicate Valid()
      reads this
    {
      currentOffset < 0x100 && interruptNumber < 0x100
    }

    ghost function View(): Chip
      requires Valid()
      reads this
    {
      Chip(interruptMask, interruptInService, interruptRequest, interruptPin, edgeLevel,
           LineOf(interruptNumber, currentOffset), currentPriority, raised)
    }

    /** The loop of PicService over the lines. */
    method FindEligible() returns (irq: nat)
      requires Valid()
      ensures irq == Scan(View(), 0)
    {
      irq := 0;
      while irq <= currentPriority
        invariant irq <= currentPriority + 1 && Scan(View(), 0) == Scan(View(), irq)
        decreases currentPriority + 1 - irq
      {
        if irq in interruptMask {
          irq := irq + 1;
          continue;
        }
        if irq !in interruptInService && irq in interruptRequest {
          break;
        }
        irq := irq + 1;
      }
    }

    method SelectLine(irq: nat)
      requires Valid() && irq < LINES
      modifies `raised, `interruptNumber
      ensures Valid() && View() == Select(old(View()), irq)
    {
      if raised {
        raised := false;
      }
      raised := true;
      interruptNumber := (irq + currentOffset) % 0x100;
    }

    method AssertLine(irq: nat)
      requires Valid()
      modifies `interruptPin, `interruptRequest
      ensures Valid() && View() == Assert(old(View()), irq)
    {
      interruptPin := interruptPin + {irq};
      interruptRequest := interruptRequest + {irq};
    }

    /** The chip's half of PicIAC; the master does not take the cascade line in service. */
    method AcceptLine() returns (vector: nat)
      requires Valid()
      modifies `raised, `interruptRequest, `currentPriority, `interruptInService
      ensures Valid() && View() == Accept(old(View()))
      ensures vector == VectorOf(old(View()).selected, currentOffset)
    {
      VectorOfLine(interruptNumber, currentOffset);
      var irq := LineOf(interruptNumber, currentOffset);
      hide LineOf, VectorOf;
      raised := false;
      if irq !in edgeLevel {
        interruptRequest := interruptRequest - {irq};
      }
      currentPriority := irq;
      interruptInService := interruptInService + {irq};
      vector := interruptNumber;
    }

    /** The loop of the non-specific end of interrupt. */
    method RetireLine()
      requires Valid() && currentPriority < LINES
      modifies `interruptInService, `currentPriority
      ensures Valid() && View() == Retire(old(View()))
    {
      var irq: int := currentPriority;
      while irq >= 0
        invariant -1 <= irq <= currentPriority && View() == old(View())
        invariant InServiceBelow(View(), currentPriority) == if irq < 0 then LINES else InServiceBelow(View(), irq)
      {
        if irq in interruptInService {
          interruptInService := interruptInService - {irq};
          currentPriority := 7;
          break;
        }
        irq := irq - 1;
      }
    }
  }

  class Pics {
    const master: Chip8259
    const slave: Chip8259

    var pendingEvent: bool

    ghost predicate Valid()
      reads this, master, slave
    {
      && master != slave && master.master && !slave.master && master.Valid() && slave.Valid()
      && master.currentPriority < LINES && slave.currentPriority < LINES
    }

    ghost function View(): State
      requires Valid()
      reads this, master, slave
    {
      State(master.View(), slave.View(), pendingEvent)
    }

    constructor ()
      ensures Valid() && View() == INITIAL && Sound(View())
      ensures master.currentOffset == 0x08 && slave.currentOffset == 0x70
    {
      master := new Chip8259(true);
      slave := new Chip8259(false);
      pendingEvent := false;
    }

    /** PicService: the slave passes its request on to the master's cascade line, whose service ends the
        recursion. */
    method Service(ofSlave: bool)
      requires Valid()
      modifies this, master, slave
      ensures Valid() && View() == PicModel.Service(old(View()), ofSlave)
      decreases if ofSlave then 1 else 0, 0
    {
      var c := if ofSlave then slave else master;
      var irq := c.FindEligible();
      if irq == c.currentPriority + 1 {
        return;
      }
      c.SelectLine(irq);
      if c.master {
        pendingEvent := true;
      } else {
        RaiseIrq(CASCADE);
      }
    }

    method RaiseIrq(n: nat)
      requires Valid()
      modifies this, master, slave
      ensures Valid() && View() == Raise(old(View()), n)
      decreases if n < LINES then 0 else 1, 1
    {
      var ofSlave := n > 7;
      var c := if ofSlave then slave else master;
      var irq := n % LINES;
      assert n <= 15 ==> irq == if ofSlave then n - LINES else n;
      hide ServiceMaster, ServiceSlave, Scan, LineOf;
      if n > 15 || irq in c.interruptPin {
        return;
      }
      c.AssertLine(irq);
      Service(ofSlave);
    }

    method LowerIrq(n: nat)
      requires Valid()
      modifies master
      ensures Valid() && View() == Lower(old(View()), n)
    {
      if n > 7 || n !in master.interruptPin {
        return;
      }
      master.interruptPin := master.interruptPin - {n};
      master.interruptRequest := master.interruptRequest - {n};
    }

    /** PicIAC. The vector is that of the line taken in service. */
    method Iac() returns (vector: nat)
      requires Valid() && Sound(View()) && pendingEvent
      modifies this, master, slave
      ensures Valid() && Sound(View()) && View() == Acknowledge(old(View()))
      ensures var s := old(View());
              vector == if s.master.selected != CASCADE then VectorOf(s.master.selected, master.currentOffset)
                        else VectorOf(s.slave.selected, slave.currentOffset)
    {
      PicRuns.AcknowledgePushes(View());
      hide VectorOf;
      pendingEvent := false;
      var irq := (master.interruptNumber + 0x100 - master.currentOffset) % 0x100;
      if irq != CASCADE {
        vector := master.AcceptLine();
      } else {
        master.raised := false;
        if irq !in master.edgeLevel {
          master.interruptRequest := master.interruptRequest - {irq};
        }
        master.interruptPin := master.interruptPin - {CASCADE};
        vector := slave.AcceptLine();
        Service(true);
      }
      Service(false);
    }

    /** OCW1. */
    method WriteMask(ofSlave: bool, mask: set<nat>)
      requires Valid()
      modifies this, master, slave
      ensures Valid() && View() == SetMask(old(View()), ofSlave, mask)
    {
      var c := if ofSlave then slave else master;
      c.interruptMask := mask;
      Service(ofSlave);
    }

    /** OCW2, non-specific end of interrupt. */
    method Eoi(ofSlave: bool)
      requires Valid()
      modifies this, master, slave
      ensures Valid() && View() == EndOfInterrupt(old(View()), ofSlave)
    {
      var c := if ofSlave then slave else master;
      c.RetireLine();
      Service(ofSlave);
    }
  }
}
