/**
 The interrupt window as the PIC and the local APIC share it: whether the PIC asks again is what its own
 acknowledge decides.
 */
module SharedWindow {
  import Apic = ApicModel
  import ApicInvariants
  import Pic = PicModel
  import PicWitness

  /** The window opens for the PIC. The local APIC keeps its wakeup if and only if it has nothing to deliver, or
      the PIC acknowledges a slave line while its master has another line waiting. */
  lemma WindowOpensIff(c: Apic.Chips, s: Pic.State)
    requires ApicInvariants.Sound(c) && ApicInvariants.Covered(c) && Pic.Sound(s)
    requires c.picEvent && s.event
    ensures ApicInvariants.Covered(Apic.Step(c, Apic.WindowOpen(Pic.Acknowledge(s).event)))
            <==> || !(Apic.Deliverable(c.local) || c.local.event)
                 || (s.master.selected == Pic.CASCADE && exists e :: e != Pic.CASCADE && Pic.Eligible(s.master, e))
  {
    PicWitness.AsksAgainIff(s);
    ApicInvariants.StepCoversIff(c, Apic.WindowOpen(Pic.Acknowledge(s).event));
  }
}
