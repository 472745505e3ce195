/**
 The graphics controller's data path: what one CPU byte does to the four planes under
 write modes 0 to 3, and what a read returns under read modes 0 and 1.
 */
module VgaAlu {
  import opened Bytes

  /** The graphics-controller registers that take part in a CPU access. */
  datatype GraphicsCtrl = GraphicsCtrl(
    writeMode: nat, readMode: nat, readMapSelect: nat,
    rasterOp: nat, dataRotate: nat, bitMask: Byte,
    setReset: Byte, enableSetReset: Byte,
    colorCompare: Byte, colorDontCare: Byte)
  {
    ghost predicate Valid() {
      writeMode < 4 && readMode < 2 && readMapSelect < 4 && rasterOp < 4 && dataRotate < 8
    }
  }

  /** The source keeps the rotated byte in 32 bits; every later use masks it to 8. */
  function Rotate(value: Byte, r: nat): Byte
    requires r < 8
  {
    if r == 0 then value else Or(ShiftRight(value, r), ShiftLeft(value, 8 - r))
  }

  function WriteMode0(gc: GraphicsCtrl, p: nat, cpu: Byte, latch: Byte): Byte
    requires gc.Valid() && p < 4
  {
    var mask := gc.bitMask;
    var value := Rotate(cpu, gc.dataRotate);
    var keep := And(latch, Not(mask));
    var (enabled, set1) := (gc.enableSetReset[p], gc.setReset[p]);
    match gc.rasterOp
    case 0 => Or(keep, if enabled then if set1 then mask else ZERO else And(value, mask))
    case 1 => Or(keep, if enabled then if set1 then And(latch, mask) else ZERO else And(And(value, latch), mask))
    case 2 => Or(keep, if enabled then if set1 then mask else And(latch, mask) else And(Or(value, latch), mask))
    case _ => Or(keep, if enabled then if set1 then And(Not(latch), mask) else And(latch, mask)
                       else And(Xor(value, latch), mask))
  }

  function WriteMode2(gc: GraphicsCtrl, p: nat, cpu: Byte, latch: Byte): Byte
    requires gc.Valid() && p < 4
  {
    var mask := gc.bitMask;
    var keep := And(latch, Not(mask));
    match gc.rasterOp
    case 0 => Or(keep, if cpu[p] then mask else ZERO)
    case 1 => Or(keep, if cpu[p] then And(latch, mask) else ZERO)
    case 2 => Or(keep, if cpu[p] then mask else And(latch, mask))
    case _ => Or(keep, if cpu[p] then And(Not(latch), mask) else And(latch, mask))
  }

  /** The mask is taken from the CPU byte before the byte is rotated. */
  function WriteMode3(gc: GraphicsCtrl, p: nat, cpu: Byte, latch: Byte): Byte
    requires gc.Valid() && p < 4
  {
    var mask := And(gc.bitMask, cpu);
    var value := And(Rotate(cpu, gc.dataRotate), mask);
    var keep := And(latch, Not(mask));
    var source := if gc.setReset[p] then value else ZERO;
    match gc.rasterOp
    case 0 => Or(keep, source)
    case 1 => Or(keep, And(source, latch))
    case 2 => Or(keep, Or(source, latch))
    case _ => Or(keep, Xor(source, latch))
  }

  function NewPlane(gc: GraphicsCtrl, p: nat, cpu: Byte, latch: Byte): Byte
    requires gc.Valid() && p < 4
  {
    match gc.writeMode
    case 0 => WriteMode0(gc, p, cpu, latch)
    case 1 => latch
    case 2 => WriteMode2(gc, p, cpu, latch)
    case _ => WriteMode3(gc, p, cpu, latch)
  }

  /** Where plane p differs from the wanted colour, if the plane is cared for. */
  function Mismatch(gc: GraphicsCtrl, p: nat, plane: Byte): Byte
    requires p < 4
  {
    And(Xor(plane, Spread(gc.colorCompare[p])), Spread(gc.colorDontCare[p]))
  }

  /** What a CPU read returns; the four bytes read have just been latched. */
  function ReadValue(gc: GraphicsCtrl, planes: seq<Byte>): Byte
    requires gc.Valid() && |planes| == 4
  {
    if gc.readMode == 0 then planes[gc.readMapSelect]
    else Not(Or(Or(Or(Mismatch(gc, 0, planes[0]), Mismatch(gc, 1, planes[1])),
                   Mismatch(gc, 2, planes[2])), Mismatch(gc, 3, planes[3])))
  }

  // ---------- the per-bit rule ----------

  function OpBit(rasterOp: nat, source: bool, latch: bool): bool {
    match rasterOp
    case 0 => source
    case 1 => source && latch
    case 2 => source || latch
    case _ => source != latch
  }

  /** Whether a write may change bit k. */
  predicate Active(gc: GraphicsCtrl, cpu: Byte, k: nat)
    requires k < 8
  {
    gc.bitMask[k] && (gc.writeMode == 3 ==> cpu[k])
  }

  /** The bit offered to plane p at position k, before the raster operation. */
  predicate SourceBit(gc: GraphicsCtrl, p: nat, cpu: Byte, k: nat)
    requires p < 4 && k < 8
  {
    if gc.writeMode == 0 && !gc.enableSetReset[p] then cpu[(k + gc.dataRotate) % 8]
    else if gc.writeMode == 2 then cpu[p]
    else gc.setReset[p]
  }

  lemma RotateBit(value: Byte, r: nat, k: nat)
    requires r < 8 && k < 8
    ensures Rotate(value, r)[k] == value[(k + r) % 8]
  {
    if k + r < 8 {
      assert (k + r) % 8 == k + r;
    } else {
      assert (k + r) % 8 == k + r - 8;
    }
  }

  /** Active bits take the raster operation of source and latch, the others keep the latch. */
  predicate BitRule(gc: GraphicsCtrl, p: nat, cpu: Byte, latch: bool, k: nat)
    requires p < 4 && k < 8
  {
    if Active(gc, cpu, k) then OpBit(gc.rasterOp, SourceBit(gc, p, cpu, k), latch) else latch
  }

  /** The bit mode 0 offers: the set bit, or the rotated CPU bit. */
  predicate Offered(gc: GraphicsCtrl, p: nat, cpu: Byte, k: nat)
    requires gc.Valid() && p < 4 && k < 8
  {
    if gc.enableSetReset[p] then gc.setReset[p] else Rotate(cpu, gc.dataRotate)[k]
  }

  predicate Merged(gc: GraphicsCtrl, latch: Byte, k: nat, source: bool)
    requires k < 8
  {
    if gc.bitMask[k] then OpBit(gc.rasterOp, source, latch[k]) else latch[k]
  }

  lemma Mode0Bit(gc: GraphicsCtrl, p: nat, cpu: Byte, latch: Byte, k: nat)
    requires gc.Valid() && p < 4 && k < 8 && gc.writeMode == 0
    ensures WriteMode0(gc, p, cpu, latch)[k] == BitRule(gc, p, cpu, latch[k], k)
  {
    RotateBit(cpu, gc.dataRotate, k);
    hide Rotate;
    match gc.rasterOp
    case 0 => Mode0Replace(gc, p, cpu, latch, k);
    case 1 => Mode0And(gc, p, cpu, latch, k);
    case 2 => Mode0Or(gc, p, cpu, latch, k);
    case _ => Mode0Xor(gc, p, cpu, latch, k);
  }

  lemma Mode0Replace(gc: GraphicsCtrl, p: nat, cpu: Byte, latch: Byte, k: nat)
    requires gc.Valid() && p < 4 && k < 8 && gc.rasterOp == 0
    ensures WriteMode0(gc, p, cpu, latch)[k] == Merged(gc, latch, k, Offered(gc, p, cpu, k))
  {
    hide Rotate;
  }

  lemma Mode0And(gc: GraphicsCtrl, p: nat, cpu: Byte, latch: Byte, k: nat)
    requires gc.Valid() && p < 4 && k < 8 && gc.rasterOp == 1
    ensures WriteMode0(gc, p, cpu, latch)[k] == Merged(gc, latch, k, Offered(gc, p, cpu, k))
  {
    hide Rotate;
  }

  lemma Mode0Or(gc: GraphicsCtrl, p: nat, cpu: Byte, latch: Byte, k: nat)
    requires gc.Valid() && p < 4 && k < 8 && gc.rasterOp == 2
    ensures WriteMode0(gc, p, cpu, latch)[k] == Merged(gc, latch, k, Offered(gc, p, cpu, k))
  {
    hide Rotate;
  }

  lemma Mode0Xor(gc: GraphicsCtrl, p: nat, cpu: Byte, latch: Byte, k: nat)
    requires gc.Valid() && p < 4 && k < 8 && gc.rasterOp == 3
    ensures WriteMode0(gc, p, cpu, latch)[k] == Merged(gc, latch, k, Offered(gc, p, cpu, k))
  {
    hide Rotate;
  }

  lemma Mode2Bit(gc: GraphicsCtrl, p: nat, cpu: Byte, latch: Byte, k: nat)
    requires gc.Valid() && p < 4 && k < 8 && gc.writeMode == 2
    ensures WriteMode2(gc, p, cpu, latch)[k] == BitRule(gc, p, cpu, latch[k], k)
  {
  }

  /** Bit k of mode 3 as the source computes it. */
  predicate SourceMode3Bit(gc: GraphicsCtrl, p: nat, cpu: Byte, latch: bool, k: nat)
    requires p < 4 && k < 8
  {
    if gc.bitMask[k] && cpu[k] then OpBit(gc.rasterOp, gc.setReset[p] && cpu[(k + gc.dataRotate) % 8], latch) else latch
  }

  /** Bit k of mode 3, for every rotate count: the mask comes from the unrotated byte. */
  lemma Mode3AnyBit(gc: GraphicsCtrl, p: nat, cpu: Byte, latch: Byte, k: nat)
    requires gc.Valid() && p < 4 && k < 8
    ensures WriteMode3(gc, p, cpu, latch)[k] == SourceMode3Bit(gc, p, cpu, latch[k], k)
  {
    RotateBit(cpu, gc.dataRotate, k);
    hide Rotate;
    var rotated := Rotate(cpu, gc.dataRotate);
    if gc.setReset[p] {
      Mode3Merged(gc, p, cpu, latch, rotated, k);
    } else {
      Mode3Merged(gc, p, cpu, latch, ZERO, k);
    }
  }

  lemma Mode3Merged(gc: GraphicsCtrl, p: nat, cpu: Byte, latch: Byte, value: Byte, k: nat)
    requires gc.Valid() && p < 4 && k < 8
    requires value == if gc.setReset[p] then Rotate(cpu, gc.dataRotate) else ZERO
    ensures WriteMode3(gc, p, cpu, latch)[k]
            == if gc.bitMask[k] && cpu[k] then OpBit(gc.rasterOp, value[k], latch[k]) else latch[k]
  {
    hide Rotate;
  }

  /** Every write mode but 1 is one rule per bit. Mode 3 obeys it when the rotate count is zero. */
  lemma WriteAluIsBitwise(gc: GraphicsCtrl, p: nat, cpu: Byte, latch: Byte, k: nat)
    requires gc.Valid() && p < 4 && k < 8
    requires gc.writeMode != 1 && (gc.writeMode == 3 ==> gc.dataRotate == 0)
    ensures NewPlane(gc, p, cpu, latch)[k] ==
            if Active(gc, cpu, k)
            then OpBit(gc.rasterOp, SourceBit(gc, p, cpu, k), latch[k])
            else latch[k]
  {
    if gc.writeMode == 0 {
      Mode0Bit(gc, p, cpu, latch, k);
    } else if gc.writeMode == 2 {
      Mode2Bit(gc, p, cpu, latch, k);
    } else {
      Mode3AnyBit(gc, p, cpu, latch, k);
    }
  }

  /** Mode 3 of the chip: the rotated byte joins the bit mask, and the set bit is the source. */
  predicate ChipMode3Bit(gc: GraphicsCtrl, p: nat, cpu: Byte, latch: bool, k: nat)
    requires p < 4 && k < 8
  {
    if gc.bitMask[k] && cpu[(k + gc.dataRotate) % 8] then OpBit(gc.rasterOp, gc.setReset[p], latch) else latch
  }

  /** The bit under the mask does not change under rotation, or the raster operation hides the change. */
  predicate RotationHarmless(gc: GraphicsCtrl, p: nat, cpu: Byte, k: nat)
    requires p < 4 && k < 8
  {
    || !gc.bitMask[k]
    || cpu[k] == cpu[(k + gc.dataRotate) % 8]
    || (if !cpu[k] && gc.setReset[p] then gc.rasterOp == 1 else gc.rasterOp >= 2)
  }

  lemma Mode3BitsAgreeIff(gc: GraphicsCtrl, p: nat, cpu: Byte, k: nat)
    requires gc.Valid() && p < 4 && k < 8
    ensures && SourceMode3Bit(gc, p, cpu, false, k) == ChipMode3Bit(gc, p, cpu, false, k)
            && SourceMode3Bit(gc, p, cpu, true, k) == ChipMode3Bit(gc, p, cpu, true, k)
            <==> RotationHarmless(gc, p, cpu, k)
  {
  }

  /** The source masks mode 3 with the unrotated byte, the chip with the rotated one. The two agree on every
      latch, bit by bit, exactly where the rotation is harmless. */
  lemma Mode3MaskIff(gc: GraphicsCtrl, p: nat, cpu: Byte, k: nat)
    requires gc.Valid() && p < 4 && k < 8
    ensures (forall latch: Byte :: WriteMode3(gc, p, cpu, latch)[k] == ChipMode3Bit(gc, p, cpu, latch[k], k))
            <==> RotationHarmless(gc, p, cpu, k)
  {
    hide WriteMode3, SourceMode3Bit, ChipMode3Bit, RotationHarmless;
    forall latch: Byte
      ensures WriteMode3(gc, p, cpu, latch)[k] == SourceMode3Bit(gc, p, cpu, latch[k], k)
    {
      Mode3AnyBit(gc, p, cpu, latch, k);
    }
    Mode3BitsAgreeIff(gc, p, cpu, k);
    assert ZERO[k] == false && ONES[k] == true;
  }

  predicate Differs(gc: GraphicsCtrl, colour: Byte, p: nat)
    requires p < 4
  {
    gc.colorDontCare[p] && colour[p] != gc.colorCompare[p]
  }

  predicate ColoursAgree(gc: GraphicsCtrl, colour: Byte) {
    forall p | 0 <= p < 4 :: !Differs(gc, colour, p)
  }

  lemma FillPlane(gc: GraphicsCtrl, p: nat, colour: Byte, latch: Byte)
    requires gc.Valid() && p < 4
    requires gc.writeMode == 2 && gc.rasterOp == 0 && gc.bitMask == ONES
    ensures NewPlane(gc, p, colour, latch) == Spread(colour[p])
  {
  }

  lemma FillMismatch(gc: GraphicsCtrl, rd: GraphicsCtrl, p: nat, colour: Byte, latch: Byte)
    requires gc.Valid() && p < 4
    requires gc.writeMode == 2 && gc.rasterOp == 0 && gc.bitMask == ONES
    ensures Mismatch(rd, p, NewPlane(gc, p, colour, latch)) == Spread(Differs(rd, colour, p))
  {
    FillPlane(gc, p, colour, latch);
  }

  function FillPlanes(gc: GraphicsCtrl, colour: Byte, latches: seq<Byte>): seq<Byte>
    requires gc.Valid() && |latches| == 4
  {
    [NewPlane(gc, 0, colour, latches[0]), NewPlane(gc, 1, colour, latches[1]),
     NewPlane(gc, 2, colour, latches[2]), NewPlane(gc, 3, colour, latches[3])]
  }

  lemma AllClear(a: bool, b: bool, c: bool, d: bool)
    ensures Not(Or(Or(Or(Spread(a), Spread(b)), Spread(c)), Spread(d))) == Spread(!a && !b && !c && !d)
  {
    var combined := Or(Or(Or(Spread(a), Spread(b)), Spread(c)), Spread(d));
    assert forall k | 0 <= k < 8 :: combined[k] == (a || b || c || d);
  }

  /** A mode-2 fill with a full mask, then a colour compare of the same byte: all ones when the two
      colours agree on the planes cared for, else zero. */
  lemma FillThenCompare(gc: GraphicsCtrl, rd: GraphicsCtrl, colour: Byte, latches: seq<Byte>)
    requires gc.Valid() && rd.Valid() && |latches| == 4
    requires gc.writeMode == 2 && gc.rasterOp == 0 && gc.bitMask == ONES && rd.readMode == 1
    ensures ReadValue(rd, FillPlanes(gc, colour, latches)) == Spread(ColoursAgree(rd, colour))
  {
    FillMismatch(gc, rd, 0, colour, latches[0]);
    FillMismatch(gc, rd, 1, colour, latches[1]);
    FillMismatch(gc, rd, 2, colour, latches[2]);
    FillMismatch(gc, rd, 3, colour, latches[3]);
    AllClear(Differs(rd, colour, 0), Differs(rd, colour, 1), Differs(rd, colour, 2), Differs(rd, colour, 3));
  }
}
