# SVMM device models

A model, in Dafny, of the device emulation of SVMM, a user-space PC emulator, with proofs of what the devices
promise their guest. Run `dafny verify dfyconfig.toml` to check it.

Most devices come in two layers. A pure layer gives each handler as a function on a state value and proves the
properties over all states and runs. A class in the source's own form (registers and arrays updated in place,
loops with invariants) is then proved, method by method, to take exactly those steps. The disk drives, the port
table and the bit search are proved directly on their classes and methods.

| files | device | main results |
|---|---|---|
| `VgaAlu`, `VgaLayout`, `VgaRefresh`, `VgaStale`, `VgaPicture`, `VgaRequests`, `VgaCore` | VGA memory and incremental refresh | from a guest write to the bits and colours of the pixels it changes; the tiles a write marks cover every pixel that reads the byte, if and only if a condition on the mode registers holds; then a refresh shows what a full redraw would, exactly over the runs without a harmful suppressed flip |
| `ApicModel`, `ApicInvariants`, `ApicPriority`, `ApicPins`, `ApicRouting`, `ApicChips` | local APIC, I/O APIC, interrupt window | what the task priority holds back; what is in service is a stack; exactly which steps lose a wakeup; one token in flight per level pin; an edge latched while masked is sent once |
| `PitModel`, `PitRuns`, `PitLoads`, `Pit` | 8254 timer | the time of every wake-up from the count written; the scheduled tick is the least transition; no drift and no skipped edge with exact conversions; exactly where the 32-bit conversion departs from that |
| `AtaAddress`, `Ata`, `AtaTaskFile` | ATA PIO reads | the bytes a READ returns and the interrupts it raises, from the task-file registers; all three address encodings step linearly; the guest reads exactly the requested bytes |
| `Atapi` | ATAPI READ over PIO | the stream does not depend on how it is cut into phases; it is exact if and only if the access width divides the granted byte count; exactly when the process exits for a short read |
| `PicModel`, `PicRuns`, `PicMasks`, `PicWitness`, `Pic` | 8259 pair | masked, lowered and used-up lines stay silent over every run; acknowledged lines grow more urgent until an end of interrupt; every eligible request is passed on; when nesting survives an end of interrupt; which slave lines repeat |
| `SharedWindow` | 8259 pair and local APIC | exactly when the pair takes the interrupt window from the local APIC for good |
| `PciBar` | port table and I/O BAR | relocation completes if and only if every new port is free when its turn comes, and then binds exactly the new window |
| `BitSearch` | word-at-a-time bit search | the least hit, and the iteration over a CPU mask |
| `Vhd` | dynamic VHD images | distinct sectors have distinct places if and only if the blocks' data is disjoint |
| `GuestDisk` | ATA drive on a VHD image | the guest reads the mapped file sectors of its range, or the process ends at a free block |

`Bytes` (a byte as its eight bits), `Widths` (access widths) and `Arith` (division facts) are shared.

Some properties are false of the code as written. The model keeps the code and proves the exact condition:

- A line wider than its offset allows, or a double-scanned split screen with an even line compare, leaves stale
  tiles (`VgaLayout.MarkingCompleteIff`, `VgaStale.ChainedMarkingShows`, `VgaStale.PlanarMarkingShows`).
- A refresh that flips the blink phase of a planar mode and is then suppressed leaves every clean blinking pixel
  stale, and nothing else in a run does (`VgaRefresh.SuppressedFlipIff`, `VgaRefresh.RunCoherentIff`, `VgaStale.SuppressedFlipShows`).
- VGA write mode 3 rotates the source but not the mask; it does what the chip does exactly where the rotation
  changes no bit under the bit mask or the raster operation hides the change (`VgaAlu.Mode3MaskIff`).
- A wakeup of the local APIC is lost exactly in the steps in which the PIC takes the window from it and does not
  ask again (`ApicInvariants.StepCoversIff`, `ApicInvariants.RunCoversIff`), which is whenever it has no second
  master line waiting behind a slave line (`PicWitness.AsksAgainIff`, `SharedWindow.WindowOpensIff`); it stays lost
  (`ApicInvariants.PicStrandsLapic`, `ApicInvariants.StrandedEvent`).
- An end of interrupt does not look at the pins again: it leaves an asserted pin unsent exactly when it is passed
  on to an unmasked one (`ApicPins.EoiSettlesIff`), as after any level interrupt whose device still holds the line
  (`ApicPins.UnsentReached`); the pin then waits over any run until some pin is raised or an entry is written
  (`ApicPins.AssertedPinWaits`).
- The logical address register keeps four bits, so flat destinations above them are never reached
  (`ApicRouting.NarrowRegisterIff`).
- `muldiv64` uses the low 32 bits of its first operand, so 2^32 ns after a load a periodic channel fires every
  nanosecond, and every periodic channel left running gets there (`PitModel.MulDivIff`,
  `PitRuns.Low32TransitionIff`, `PitRuns.Low32RunIff`, `PitRuns.StormBegins`).
- The CHS cylinder carry tests the sector register and is never taken; the linear address is right all the same
  up to the last sector under head 255 (`AtaAddress.ChsSuccessorIff`).
- 32-bit reads of an ATAPI phase whose byte count is 2 modulo 4 read past the requested blocks, and at the end of
  the disc end the process (`Atapi.PhaseBytesIff`, `Atapi.LastBlocksHaltIff`, `Atapi.Drive.ReadAll`).
- A READ of no blocks at block 0 of a disc is set up as a READ of the whole disc (`Atapi.ServedIff`).
- The range check of an ATAPI READ compares its byte count with the number of blocks: within the disc or not, it raises
  an error exactly when 2048 times the length reaches the capacity (`Atapi.RejectedIff`).
- The non-specific end of interrupt resets the priority to 7 (`PicRuns.RetireNestsIff`); the cascade line is never
  in service at the master, so the master's end of interrupt after a slave interrupt retires another line
  (`PicRuns.CascadeEoiIff`); slave lines are never lowered, so exactly the level-triggered ones can be acknowledged
  more than once (`PicWitness.SlaveLineRepeatsIff`).
- Writing zero to an I/O BAR unbinds only its first dispatched port (`PciBar.UnboundIff`).
- The VHD bitmap size truncates a block's sector count to whole bytes (`Vhd.BitmapCoversIff`).

## Model

| member | source | states |
|---|---|---|
| VgaAlu.WriteAluIsBitwise | SVMM/vgacore.c:760-996 | In write modes 0, 2 and 3, bit k of plane p becomes op(source, latch) where the mask is one and keeps the latch elsewhere: one per-bit rule behind three byte-wise table-driven arms. |
| VgaAlu.Mode3MaskIff | SVMM/vgacore.c:936-996 | For every register setting, CPU byte and bit: mode 3 agrees on all latches with the chip, which masks with the rotated byte, if and only if the bit mask is off, the rotation leaves the bit alone, or the raster operation hides the difference. |
| VgaAlu.FillThenCompare | SVMM/vgacore.c:571-610 | A full-mask mode-2 write of a colour followed by a read-mode-1 compare gives ones if and only if the colours agree on the cared-for planes, else zeros. |
| VgaLayout.MarkingCompleteIff | SVMM/vgacore.c:998-1062 | Every visible pixel that reads a byte lies in a tile the write of that byte marks, if and only if lines fit their offset and a double-scanned split is aligned; both layouts, scrolled and split parts. |
| VgaLayout.BlinksIff | SVMM/vgacore.c:113-146 | The colour of a planar pixel changes with the blink phase if and only if its plane 3 is set and enabled and the palette gives the two attributes different colours. |
| VgaLayout.ChainedReads | SVMM/vgacore.c:367-391 | Which guest offset a chained pixel reads: the display's address and the guest's chain-four cell agree on exactly one, and on none when the start address is not a multiple of four. |
| VgaRefresh.WriteKeepsCoherent | SVMM/vgacore.c:732-750 | A guest write at any address leaves every clean tile showing what rendering the new memory would give. |
| VgaRefresh.RefreshKeepsCoherent | SVMM/vgacore.c:196-254 | So does a refresh, suppressed or not, unless it flips the blink phase of a planar mode and is suppressed in that very step. |
| VgaRefresh.RefreshCleans | SVMM/vgacore.c:297-322 | An unsuppressed refresh leaves no dirty tile on screen. |
| VgaRefresh.SuppressedFlipIff | SVMM/vgacore.c:212-256 | A suppressed flip of the blink phase keeps the screen coherent if and only if no clean visible pixel blinks, as the attribute and palette registers define it. |
| VgaRefresh.StepCoherentIff | SVMM/vgacore.c:642-1064 | A step from a coherent state leaves clean tiles current if and only if it is not a suppressed flip over a clean blinking pixel. |
| VgaRefresh.RunCoherentIff | SVMM/vgacore.c:642-1064 | Clean tiles are current at every boundary of a run of writes, latching reads, register writes, redraw requests and refreshes if and only if no step is such a flip. |
| VgaRefresh.RunKeepsCoherent | SVMM/vgacore.c:642-1064 | So every run without such a flip ends coherent; suppressed flips that change no clean pixel are allowed. |
| VgaRefresh.RefreshEqualsFullRedraw | SVMM/vgacore.c:196-447 | After any such run, the next unsuppressed refresh leaves every visible pixel equal to a full render of memory. |
| VgaRefresh.FullRedrawRequest | SVMM/vgacore.c:1066-1103 | A redraw request for the whole screen makes any state coherent again. |
| VgaPicture.ColourIsRule | SVMM/vgacore.c:113-146 | Every bit of a planar pixel's colour: four or six bits of the palette entry that the enabled planes and the blink phase select, the colour select register above them, all under the pel mask. |
| VgaPicture.PictureShows | SVMM/vgacore.c:99-147 | A current screen is the picture of memory: bit 7 - i of the four bytes at a column and line of the start address, or of zero below the line compare, is the pixel there, for both dot clocks and scan modes. |
| VgaPicture.EveryPixelHasAPlace | SVMM/vgacore.c:99-112 | Every pixel is one such bit of one such byte. |
| VgaPicture.PlanarWriteShows | SVMM/vgacore.c:732-1064 | A plain one-plane guest write and a refresh put the byte's bits on screen, most significant on the left, in those colours, at the pixels of its address. |
| VgaPicture.ChainedWriteShows | SVMM/vgacore.c:732-750 | A chained guest write and a refresh show the byte at its pixels. |
| VgaPicture.ReadsBack | SVMM/vgacore.c:544-614 | What a plain write stored, a read of that plane returns after any run that does not write the same address, in both layouts. |
| VgaRequests.RedrawMarksIff | SVMM/vgacore.c:1066-1103 | For every rectangle, a redraw request marks exactly the tiles of the array its pixels lie in; past the end of the screen at most the last tile. |
| VgaRequests.RequestAfterRefresh | SVMM/vgacore.c:246-254 | The screen size it clips at is the one the last refresh found. |
| VgaRequests.BlinkPeriod | SVMM/vgacore.c:205-226 | Over any run the refreshes, suppressed or not, count down the blink period, and the phase flips once each time it is over. |
| VgaStale.ChainedMarkingShows | SVMM/vgacore.c:732-750 | Where the marking condition fails in the chained layout, some single write makes the next refresh leave a wrong pixel. |
| VgaStale.PlanarMarkingShows | SVMM/vgacore.c:998-1062 | The same in the planar layout, for both ways the condition fails, with a plain one-plane write and a palette that shows that plane. |
| VgaStale.IdentityPaletteSees | SVMM/vgacore.c:113-146 | The identity palette shows every plane. |
| VgaStale.SuppressedFlipShows | SVMM/vgacore.c:212-256 | A coherent clean screen that one suppressed flip leaves wrong. |
| VgaRefresh.ReadThenMode1Copies | SVMM/vgacore.c:571-610 | A read and then a mode-1 write copy the four planes of one offset to another and change no other cell. |
| VgaRefresh.StorePlanesFrame | SVMM/vgacore.c:998-1025 | A planar write changes no cell outside the four of its offset. |
| VgaCore.Core.MmioWrite | SVMM/vgacore.c:642-1064 | The write handler over arrays takes exactly the write step: memory, tile flags, nothing else. |
| VgaCore.Core.MmioRead | SVMM/vgacore.c:544-614 | The read handler latches the four planes, or reads the chained byte, and returns the mode's value. |
| VgaCore.Core.RedrawArea | SVMM/vgacore.c:1066-1103 | The request's nested loops mark exactly its block of tiles, clipped to the array. |
| VgaCore.Core.Update | SVMM/vgacore.c:196-447 | The tile, row and column loops of the refresh take exactly the refresh step. |
| VgaCore.Core.PixelColour | SVMM/vgacore.c:99-147 | The colour computed from the arrays is the specified pixel. |
| VgaCore.Core.SetTileUpdated | SVMM/vgacore.c:35-46 | The flattened flag array behaves as a set of tiles; out-of-range tiles are ignored. |
| ApicInvariants.RunIsStack | SVMM/apic.c:92-130 | In every reachable state a pending event means the top request outranks the top service, and each priority class holds at most one vector in service. |
| ApicInvariants.StepSound | SVMM/apic.c:170-193 | Every step keeps the stack of acknowledged vectors equal to the ISR bits and strictly ascending by class. |
| ApicInvariants.ResetSound | SVMM/apic.c:449-488 | The reset state satisfies the invariants of this module. |
| ApicInvariants.AcknowledgePushes | SVMM/apic.c:268-292 | An acknowledge puts the top request in service above everything there, or hands out the spurious vector and changes nothing in service. |
| ApicInvariants.EoiPopsLast | SVMM/apic.c:115-130 | An end of interrupt removes exactly the last acknowledged vector, unless it is the spurious one. |
| ApicInvariants.NoLostWakeup | SVMM/apic.c:92-111 | Without PIC requests, over any run, a deliverable request is pending, and the window is requested exactly while an event is. |
| ApicInvariants.StepCoversIff | SVMM/SVMM.c:934-958 | With PIC requests allowed: a step keeps the window requested for everyone who waits, and for no one else, if and only if it is not the PIC taking the window, without asking again, from a local APIC with something to deliver. |
| ApicInvariants.RunCoversIff | SVMM/apic.c:92-111 | Over any run, no wakeup is lost at any step boundary if and only if no step is of that kind. |
| ApicInvariants.PicStrandsLapic | SVMM/SVMM.c:934-958 | Three steps lead from any quiet state to a pending local event without a window request. |
| ApicInvariants.StrandedEvent | SVMM/apic.c:92-111 | That state lasts over any run without another PIC request or window. |
| ApicPriority.NewEventWaits | SVMM/apic.c:92-111 | A step that newly sets the event leaves a request of a class above the task priority and above every class in service. |
| ApicPriority.WaitingIsPending | SVMM/apic.c:92-111 | Without PIC requests, over any run, such a request has the event pending and the window requested. |
| ApicPriority.StepServes | SVMM/apic.c:268-292 | A vector enters service only at an opened window, as the highest request, of a class not below the task priority and above all in service; one leaves only at an end of interrupt, the highest; the task priority is the last value from 0 to 15 written. |
| ApicPriority.TaskPriorityHoldsBack | SVMM/apic.c:49-59 | While the task priority stays, no vector of a lower class enters service, over any run. |
| ApicRouting.RaiseDelivers | SVMM/ioapic.c:9-83 | Raising a pin requests its vector if and only if the entry is unmasked, not in flight, legal and addressed to the local APIC, in the physical, flat and cluster forms; IRQ 0 is pin 2. |
| ApicRouting.LatchedEdgeIsIgnored | SVMM/ioapic.c:63-83 | A raise of an edge already latched does nothing at all. |
| ApicRouting.StepSettles | SVMM/ioapic.c:63-133 | Every other raise, and every write of either word of an entry, leaves nothing to send, with delivery the bus accepts. |
| ApicRouting.MatchIsAddressed | SVMM/apic.c:74-90 | A logical destination matches exactly its addressees. |
| ApicRouting.LoweredNeverSent | SVMM/ioapic.c:51-61 | A lowered level line is not sent over any run that does not raise it again; lowering an edge line takes nothing back. |
| ApicRouting.EndIsBroadcastIff | SVMM/apic.c:115-130 | A vector's end of interrupt is told to its pins if and only if it was delivered as level-triggered. |
| ApicRouting.StepPrograms | SVMM/ioapic.c:99-133 | A table entry is what the guest last wrote to its two words; no other step changes its programming. |
| ApicRouting.NarrowRegisterIff | SVMM/apic.c:554 | The logical address register keeps the low four bits of what is written: in the flat model a destination is missed exactly when it shares only higher bits with it. |
| ApicRouting.StepAddresses | SVMM/apic.c:135-142 | The logical address, focus and spurious-vector registers hold what was last written. |
| ApicPins.TokenConserved | SVMM/ioapic.c:9-39 | Over any run that leaves its programming alone, a level pin's Remote-IRR is set exactly when its vector is in one of IRR and ISR, and deliveries exceed ends by one then and by none otherwise. |
| ApicPins.EoiSettlesIff | SVMM/ioapic.c:86-96 | From a state with nothing left to send, an end of interrupt leaves nothing to send if and only if it is not passed on, or every asserted pin it ends is masked. |
| ApicPins.UnsentReached | SVMM/ioapic.c:86-96 | For every pin and legal vector, a run from reset that programs a level entry, raises the pin and takes the interrupt reaches a state whose end of interrupt leaves the pin unsent. |
| ApicPins.AssertedPinWaits | SVMM/ioapic.c:86-96 | An unmasked pin still asserted at its end of interrupt stays asserted and unsent over any run with no raise, no table write and no lowering of it. |
| ApicPins.ServiceSettles | SVMM/ioapic.c:41-49 | After the pin loop every requesting pin is masked or a level pin in flight. |
| ApicPins.LatchInvariant | SVMM/ioapic.c:63-83 | With delivery the bus accepts, a latched edge pin is masked at every step boundary of any run. |
| ApicPins.EdgeDeliveredOnce | SVMM/ioapic.c:121-128 | An edge on a masked pin survives any run, further edges coalesce, and unmasking sends it exactly once. |
| ApicChips.ScansFindTop | SVMM/apic.c:24-47 | The two countdown scans over words and bits find the highest vector. |
| ApicChips.Controllers.ApicSetIrq | SVMM/apic.c:170-193 | Over the word arrays, the request, trigger mode and service of one vector. |
| ApicChips.Controllers.ApicAcknowledgeInterrupt | SVMM/apic.c:268-292 | The acknowledge step, and the vector it returns. |
| ApicChips.Controllers.ApicReceiveEoi | SVMM/apic.c:115-130 | The end-of-interrupt step across both chips. |
| ApicChips.Controllers.WriteTpr | SVMM/apic.c:538-548 | The task-priority step: values above 15 are ignored and only a lower one looks for work. |
| ApicChips.Controllers.ApicBusDeliverInterrupt | SVMM/apic.c:297-363 | Which deliveries the bus takes, what they do, and that exactly the reserved mode ends the process. |
| ApicChips.Controllers.IoApicSetIntr | SVMM/ioapic.c:9-39 | One pin's delivery step, which ends the process exactly when the entry is tried and has the reserved mode. |
| ApicChips.Controllers.IoApicService | SVMM/ioapic.c:41-49 | The pin loop is the specified fold over the pins; the process ends if and only if some asserted, sendable entry has the reserved mode. |
| ApicModel.ExitsFrom | SVMM/ioapic.c:41-49 | Trying one pin never decides whether a later one ends the process, so the loop ends it exactly when an entry does as it stood before the loop. |
| ApicChips.Controllers.IoApicReceiveEndOfInterrupt | SVMM/ioapic.c:86-96 | Clears Remote-IRR of exactly the level pins with the vector. |
| ApicChips.Controllers.IoApicRaiseIrq | SVMM/ioapic.c:63-83 | The raise step; IRQ 0 is pin 2, and an edge already latched is ignored. |
| ApicChips.Controllers.WriteLowWord | SVMM/ioapic.c:121-128 | The redirection-table write, which serves all pins. |
| ApicChips.Controllers.WindowOpened | SVMM/SVMM.c:934-958 | The interrupt-window step: the PIC first, then the local APIC. |
| PitModel.NextTickIsLeast | SVMM/pit.c:77-108 | For every mode and count the scheduled tick is the first at which the output changes or pulses, and -1 is returned exactly when there is none. |
| PitModel.RoundTrip | SVMM/pit.c:109-118 | Tick to nanoseconds plus one and back is the identity. |
| PitModel.ExactTransition | SVMM/pit.c:109-118 | The returned time is after now, falls on the scheduled tick, and the clamp never changes it. |
| PitModel.MulDivIff | SVMM/timer.c:24-35 | The 32-bit conversion is exact if and only if its first operand is below 2^32. |
| PitRuns.NoDrift | SVMM/pit.c:201-245 | For every k the k-th wake-up after a load falls exactly on the k-th period or half-period boundary. |
| PitRuns.TransitionsAreBoundaries | SVMM/pit.c:166-199 | Every output transition is one of those boundaries. |
| PitRuns.OutputAlternates | SVMM/pit.c:190-192 | The square wave alternates from boundary to boundary. |
| PitRuns.EdgesPerPeriod | SVMM/pit.c:201-235 | From any load with interrupts enabled, k wake-ups raise IRQ 0 k times in mode 2, k/2 times in mode 3, and never for a square wave of count 1. |
| PitRuns.LoadIsFresh | SVMM/pit.c:247-259 | Any load starts such a run; an enabled square wave starts high. |
| PitLoads.LoadSchedules | SVMM/pit.c:247-259 | For every written value, 0 meaning 65536, and every k, the k-th wake-up after the load is in the tick of the k-th change of that count, whole in mode 2 and half in mode 3, and its time in nanoseconds is that of the tick. |
| PitLoads.SourceSchedules | SVMM/pit.c:201-259 | With the source's conversion the wake-up is at that time if and only if the one before lies less than 2^32 ns after the load. |
| PitLoads.OneShotInterrupts | SVMM/pit.c:166-235 | In modes 0, 1, 4 and 5 a load fires once, in the tick of the count written; which way the line goes, and the one interrupt it is. |
| PitLoads.DisabledIsSilent | SVMM/pit.c:201-235 | With interrupts disabled no wake-up touches the line. |
| PitRuns.Low32TransitionIff | SVMM/pit.c:69-119 | In every mode, the source's schedule is the exact one if and only if fewer than 2^32 ns have passed since the load, or the next boundary's tick begins within the next nanosecond (periodic), or the wrapped tick count is past the count (one-shot). |
| PitRuns.Low32RunIff | SVMM/pit.c:237-245 | For every k, the k-th wake-up of the source's run is the exact one if and only if the one before lies below 2^32 ns after the load. |
| PitRuns.ExactWakesReach | SVMM/pit.c:237-245 | Exact wake-ups are at least two nanoseconds apart, so every run gets there. |
| PitRuns.Low32RunStorms | SVMM/pit.c:115-118 | From a wake-up at or past 2^32 ns on, every wake-up is one nanosecond after the last. |
| PitRuns.StormBegins | SVMM/pit.c:115-118 | Every periodic channel left running reaches such a wake-up, on the exact schedule until then. |
| Pit.Timer8254.GetNextTransitionTime | SVMM/pit.c:69-119 | The branching computation is the specified transition time. |
| Pit.Timer8254.IrqTimerUpdate | SVMM/pit.c:201-235 | The update takes the specified step, line and timer included. |
| AtaAddress.LbaSuccessor | SVMM/harddisk.c:155-203 | In both LBA encodings the registers step to the next linear sector, across every register boundary. |
| AtaAddress.ChsSuccessorIff | SVMM/harddisk.c:184-200 | In CHS they do if and only if the sector is within the track and is not the last under head 255; the cylinder register never changes. |
| AtaAddress.StepsVisitRange | SVMM/harddisk.c:392-418 | k steps visit sectors L to L+k-1 in all three encodings. |
| AtaTaskFile.ChsOrder | SVMM/harddisk.c:235-237 | In the geometry of 16 heads and 63 sectors, the first sector is 0, and the next place on the track, the next head and the next cylinder is the next number. |
| AtaTaskFile.ChsInjective | SVMM/harddisk.c:235-237 | Distinct places are distinct sectors. |
| AtaTaskFile.ChsCovers | SVMM/harddisk.c:235-237 | The first cylinders are exactly the first sectors. |
| AtaTaskFile.LbaValue | SVMM/harddisk.c:214-232 | A logical block address is the number its register bytes write in base 256, in both widths. |
| AtaTaskFile.LbaInjective | SVMM/harddisk.c:214-232 | Distinct bytes are distinct sectors. |
| AtaTaskFile.RequestedAsks | SVMM/harddisk.c:30-50 | The request is the one number from 1 to 256, or to 65536, that the count registers hold the low bits of. |
| AtaTaskFile.GuestRead | SVMM/harddisk.c:1069-1124 | A READ command, drained, returns the bytes of the sectors that the task file names, and raises one interrupt for each block after the first, of the block size of the command. |
| Ata.Requested | SVMM/harddisk.c:30-50 | Every request is at least one sector and at most 256, or 65536. |
| Ata.Drive.IncrementAddress | SVMM/harddisk.c:155-203 | The register step, the two counters, and that the range ahead shrinks by its first sector. |
| Ata.Drive.ReadSector | SVMM/harddisk.c:384-420 | The sector loop fills the buffer with the image from the address registers on, and moves them past it. |
| Ata.Drive.ReadCommand | SVMM/harddisk.c:1069-1124 | The command is refused exactly in the four source cases, else the first block is loaded and data requested, without an interrupt. |
| Ata.Drive.NextBlock | SVMM/harddisk.c:1935-1963 | At the end of a block the next is loaded with an interrupt, or data request drops, exactly when all bytes are taken. |
| Ata.Drive.ReadPort0 | SVMM/harddisk.c:1906-1965 | Each read returns the next bytes of the image; the exit for an overrun index is unreachable; data request drops exactly after the last byte. |
| Ata.Drive.ReadAll | SVMM/harddisk.c:1906-1965 | A guest that reads with one width until data request drops gets exactly bytes 512L to 512(L+n), with an interrupt for each block after the first. |
| Atapi.GrantBounds | SVMM/harddisk.c:263-299 | A limit of two or more grants an even, nonzero count that respects it. |
| Atapi.GrantIsLargest | SVMM/harddisk.c:263-299 | It is the largest count within the limit that is even, or the whole transfer when that fits. |
| Atapi.RejectedIff | SVMM/harddisk.c:816-822 | From a block of the disc, the check rejects a READ if and only if its byte count reaches the number of blocks, or it asks for none elsewhere than at block 0. |
| Atapi.PhaseBytesIff | SVMM/harddisk.c:2028-2056 | The phases take exactly the bytes of the command if and only if the width divides the granted count. |
| Atapi.LastBlocksHaltIff | SVMM/harddisk.c:1999-2005 | A command for the last blocks of a disc runs into its end if and only if the width does not divide the granted count. |
| Atapi.ShortReadReached | SVMM/harddisk.c:1999-2005 | One such input: the last block of any disc, a limit of 6 and 32-bit reads. |
| Atapi.Drive.InitCommand | SVMM/harddisk.c:263-299 | The granted count, the remaining bytes, a zero allocation taken from the limit, and the early return that changes nothing else. |
| Atapi.ServedIff | SVMM/harddisk.c:816-827 | After the 64-bit clipping a READ names blocks of the disc if and only if its first block is on it and it asks for some, or it asks for none at block 0; then it is clipped to the rest of the disc, and in the last case is the whole disc. |
| Atapi.Drive.StartRead | SVMM/harddisk.c:807-834 | For every block and length: the error arms that fall through, with their interrupts, the clipped count, and the registers of the set-up. |
| Atapi.Drive.Prepared | SVMM/harddisk.c:807-834 | With its blocks on the disc and a nonzero grant, the set-up leaves a command ready to stream them. |
| Atapi.Drive.NextBlock | SVMM/harddisk.c:1993-2010 | The next block is loaded when the buffer is used up; the process exits for a short read exactly at the end of the disc. |
| Atapi.Drive.NextPhase | SVMM/harddisk.c:2028-2056 | The end of a phase opens the next with what is left, or completes the command. |
| Atapi.Drive.ReadPort0 | SVMM/harddisk.c:1991-2059 | For every read, of any width: nothing while no data is requested; else the next bytes of the stream with the phase counted, or the end of the process exactly at the end of the disc; a read across the end of a block gets only what is left of it, and every read after it gets zeros. |
| Atapi.Drive.ReadAll | SVMM/harddisk.c:1991-2059 | The process exits if and only if the phases run past the last block; else the guest gets the whole stream, phases respect the limit and sum to 2048n; exact, with no block left, if and only if the width divides the granted count. |
| Atapi.Drive.ReadBlocks | SVMM/harddisk.c:1991-2059 | For every limit of two or more, 16-bit reads return blocks lba to lba+n-1 and never end the process, once the first phase is opened; nothing in the source opens it for a PIO READ, so that is an environment step. |
| Atapi.Drive.ReadBlock | SVMM/cdrom.c:33-52 | The block source in its 2048-byte form, with a short count at the end of the image. |
| PicRuns.StepSound | SVMM/pic.c:84-159 | Every step keeps: an eligible master request has the event pending, an eligible slave request has the cascade requested, and what is selected is the most urgent. |
| PicRuns.RunSound | SVMM/pic.c:84-234 | So does every run. |
| PicRuns.AcknowledgePushes | SVMM/pic.c:162-197 | An acknowledge takes exactly one line in service, not in service before and at least as urgent as every eligible request of its chip. |
| PicRuns.AcksDecrease | SVMM/pic.c:162-197 | Until an end of interrupt the lines each chip acknowledges strictly decrease, starting below what is in service. |
| PicRuns.RetireNestsIff | SVMM/pic.c:318-328 | The end of interrupt retires the line acknowledged last; nesting survives if and only if at most line 7 stays in service. |
| PicRuns.CascadeEoiIff | SVMM/pic.c:174-192 | The two ends of interrupt of a slave line retire a line of the master, unless nothing is in service there. |
| PicMasks.EventIsBest | SVMM/pic.c:84-159 | A step that sets the event, or an acknowledge that leaves it set, has selected the most urgent master line that is requested, unmasked and not in service. |
| PicMasks.CascadeIsBest | SVMM/pic.c:84-159 | A step that raises the cascade line has selected such a line of the slave. |
| PicMasks.MaskedRaise | SVMM/pic.c:124-133 | Raising a masked line sets no event and passes nothing to the master. |
| PicMasks.UnmaskedRaise | SVMM/pic.c:218-234 | Raising an idle, unmasked, urgent enough line leaves the event pending for a line at least as urgent. |
| PicMasks.StepMasks | SVMM/pic.c:410-413 | The mask registers hold what was last written. |
| PicMasks.MaskedLineIsSilent | SVMM/pic.c:84-234 | Over any run without a write of its chip's mask, a masked line that is not already selected is never acknowledged. |
| PicMasks.NothingBeforeMasks | SVMM/pic.c:61-82 | So from initialisation to the first mask write nothing is. |
| PicMasks.LoweredLineIsSilent | SVMM/pic.c:201-216 | A master line lowered before it is selected is not acknowledged until it is raised again; lowering a slave line does nothing. |
| PicMasks.HeldLineOnce | SVMM/pic.c:162-197 | An edge-triggered master line held up is acknowledged once, until the device lowers it. |
| PicWitness.SlaveLineRepeatsIff | SVMM/pic.c:201-216 | A slave line is acknowledged more than once in some run from a sound state if and only if it is level-triggered. |
| PicWitness.LevelLineRepeats | SVMM/pic.c:201-216 | A level-triggered slave line, raised once, is acknowledged any number of times. |
| PicWitness.AsksAgainIff | SVMM/pic.c:162-197 | An acknowledge leaves the event pending if and only if it takes a slave line and the master has another eligible line. |
| PicRuns.InitialSound | SVMM/pic.c:61-82 | The state PicInitialize leaves satisfies the invariant. |
| PicWitness.MaskWritesSettle | SVMM/pic.c:410-413 | From any state whose chips are consistent, a mask write to each chip, in either order, makes the invariant hold. |
| PicWitness.InitWordsThenMasks | SVMM/pic.c:274-415 | The four initialisation words leave lines raised meanwhile requested without an event, so the invariant holds if and only if there are none; the two mask writes that follow restore it. |
| SharedWindow.WindowOpensIff | SVMM/SVMM.c:934-958 | With both controllers waiting, opening the window keeps the local APIC's wakeup if and only if it has nothing to deliver, or the PIC takes a slave line while its master has another line eligible. |
| Pic.Pics.Service | SVMM/pic.c:84-159 | The service procedure, mutually recursive with the raise, terminates and takes the specified step. |
| Pic.Pics.RaiseIrq | SVMM/pic.c:218-234 | The raise step; a line whose pin is set already is ignored. |
| Pic.Pics.LowerIrq | SVMM/pic.c:201-216 | The lower step, which ignores lines 8 to 15. |
| Pic.Pics.Iac | SVMM/pic.c:162-197 | The acknowledge step; the vector is the chip's offset plus the line taken in service. |
| Pic.Pics.WriteMask | SVMM/pic.c:410-413 | The mask write, followed by a service. |
| Pic.Pics.Eoi | SVMM/pic.c:318-328 | The non-specific end of interrupt, followed by a service. |
| PciBar.Bus.Register | SVMM/pci.c:26-43 | Registration succeeds if and only if the port is in range and free; the bitmap and the handlers stay consistent. |
| PciBar.Bus.Remove | SVMM/pci.c:45-56 | Removal succeeds if and only if the port is bound, and frees exactly it. |
| PciBar.MovedStep | SVMM/pci.c:194-207 | One turn of the interleaved loop extends the moved prefix by one port, and registers if and only if the new port is free in the original table or was given up earlier. |
| PciBar.RelocatableWhen | SVMM/pci.c:194-207 | Free new ports, or a move down or in place over the old window, are enough. |
| PciBar.Device.Relocate | SVMM/pci.c:194-207 | The loop completes if and only if every new port is available in turn; then new ports are bound, old ones free, all others untouched. |
| PciBar.UnboundIff | SVMM/pci.c:194-205 | A zero base frees the whole window if and only if at most one port of it is dispatched. |
| PciBar.MovedIsMapped | SVMM/pci.c:234 | A completed relocation leaves the window mapped at the new base. |
| PciBar.RegisterReads | SVMM/pci.c:161-174 | The four bytes stored read back as the base with the I/O type bit. |
| PciBar.ProbeFindsSizeIff | SVMM/pci.c:177-191 | The sizing probe reports the size if and only if it is a multiple of four. |
| PciBar.Device.WriteIoBar | SVMM/pci.c:158-236 | Every arm of the write: unchanged, probe, zero, relocation; after an accepted four-byte write the register shows the mapped base. |
| BitSearch.FindNextBit | SVMM/gvm_types.h:1319-1342 | The least index in [start, nbits) whose bit differs from the inverting word, else nbits. |
| BitSearch.FindFirstBit | SVMM/gvm_types.h:1371-1381 | The least set bit, else the size. |
| BitSearch.ForEachCpu | SVMM/gvm_types.h:1428-1443 | The iteration visits exactly the set bits, in increasing order. |
| Vhd.InjectiveIff | SVMM/vhd.c:192-218 | Distinct guest sectors have distinct file sectors if and only if the data areas of the allocated blocks are disjoint. |
| Vhd.SectorAt | SVMM/vhd.c:192-218 | Each data sector of a block stores exactly one guest sector of it. |
| Vhd.Adjacent | SVMM/vhd.c:192-218 | Sectors that follow each other in a block do so in the file. |
| Vhd.BitmapCoversIff | SVMM/vhd.c:44-53 | The rounded-up bitmap has a bit for every sector if and only if the block size modulo 4096 is not 1 to 7, and is never more than a sector too long. |
| Vhd.SwapIsBigEndian | SVMM/vhd.c:82-83 | The swap reads an entry's file bytes from the most significant one on. |
| Vhd.Image.LoadDynamicDisk | SVMM/vhd.c:33-83 | The geometry, the table limit, and the in-place swap of every entry. |
| Vhd.Image.Read | SVMM/vhd.c:181-218 | The bytes at the mapped place; a free block ends the process. |
| GuestDisk.ReadSectors | SVMM/harddisk.c:384-420 | The drive's sector loop over the image ends the process if and only if a sector of the range is in a free block, and else returns the mapped file sectors in order. |
| GuestDisk.OneStretch | SVMM/vhd.c:192-218 | Sectors of one block are one stretch of the file. |
| GuestDisk.RangeOfDisk | SVMM/harddisk.c:384-420 | A range of a disk that holds each sector's file bytes is those file sectors in order. |
| GuestDisk.GuestReads | SVMM/harddisk.c:1906-1965 | A guest that drains a read command on such a disk gets the mapped file sectors of its range. |

## Left out

- VGA modes: text, CGA, mode-X and word-mode rendering, character maps, and display-register writes during a run; the mapping is the 64K window at A0000 and the displayed area stays within one 64K plane and the 800x600 tile array.
- VgaRefresh.RefreshEqualsFullRedraw: the test of `VgaCoreSkipUpdate` is a parameter of each refresh; runs with a suppressed flip over a clean blinking pixel are excluded, and `VgaRefresh.RunCoherentIff` says that they, and no others, break the cache.
- VgaStale.PlanarMarkingShows: the write uses mode 0 with a full mask and one plane, and the refresh after it does not itself flip the blink phase, which would redraw every tile.
- APIC bus: one local APIC, always enabled; SMI, NMI, INIT, start-up and external delivery modes are refused deliveries; the reserved one is refused too and sets `halted`, after which the registers mean nothing; inter-processor and local-vector interrupts are one `LocalIrq` step, and the APIC timer is not modelled.
- The registers a local APIC write stores are the events' arguments; `ApicRouting.NarrowRegisterIff` is about the one that is cut.
- ApicPins.TokenConserved: assumes the pin's vector is its own, legal and not the spurious one, and that a write of its entry keeps everything but the mask; `ApicPins.DeliveryMakesTokenIff` says which deliveries make a request otherwise.
- The PIC inside the APIC runs is one pending flag; the pair itself is modelled in `PicModel` without forwarding to the I/O APIC.
- PicRuns.StepSound: fully nested mode after initialisation, with constant vector offsets and edge-level registers; the initialisation words are one state (`PicWitness.AfterInitWords`), and special-mask, poll, automatic and specific end-of-interrupt commands are not modelled, and devices do not drive the cascade line; before the first mask writes `PicWitness.InitWordsThenMasks` is what holds.
- PIT: one channel; timer firings happen at their scheduled time, the 64-bit clock does not wrap, and port decoding and count latching are left out.
- Ata.Drive.ReadCommand: a range that runs past the disk or past what the registers can count, and a block larger than the sixteen-sector buffer (SET MULTIPLE accepts up to 63), are preconditions, because what the source does there depends on memory the model does not have.
- ATA writes, bus-master DMA, IDENTIFY and the verify commands: left out.
- GuestDisk.GuestReads: `Ata.Drive` reads a fixed disk; a free block in its range, which ends the process, is in `GuestDisk.ReadSectors`, and the file is taken to hold every mapped sector completely.
- Atapi.Drive.StartRead: the length is the one after READ(10) has fallen through to the READ(12) field, and the image is smaller than 2 GB, below the signed file offset; READ CD in its 2352-byte form is left out.
- Atapi.Drive.ReadAll: the data request that opens the first phase is an environment step, since the seek timer that would call it is never registered; the guest keeps one width (`Atapi.Drive.ReadPort0` covers the others) and reads a command whose blocks are on the disc.
- PciBar.Device.WriteIoBar: one I/O register of at most 64 ports, as the 64-bit mask allows; the bitmap has one bit per port; memory BARs and other configuration bytes are left out.
- BitSearch: word-wide bitmap logic and `find_first_zero_bit`, which compares with a 32-bit constant, are left out.
- Vhd.Image.Read: offsets beyond the allocation table and a block size below one sector are preconditions; writing and differencing images are left out.
- DMA controller, HPET, ACPI, CMOS, keyboard, GUI and driver input/output: not part of this model.
