/** The 8259A interrupt masks of i8259.c. A mask byte is kept as its eight bits, least significant
    first; a set bit masks the line. */
module InterruptController {
  import opened Bytes

  const MAX_IRQ := 15
  const PIT_IRQ := 0
  const KEYBOARD_IRQ := 1
  const CASCADE_IRQ := 2
  const RTC_IRQ := 8

  /** The byte written to the data port. */
  function MaskByte(bits: seq<bool>): int {
    if bits == [] then 0 else (if bits[0] then 1 else 0) + 2 * MaskByte(bits[1..])
  }

  /** or-ing with 1 << i adds 2^i unless bit i is set; and-ing with its complement subtracts 2^i if it
      is. So a bit update is exactly the C expression on the byte. */
  lemma {:induction false} BitUpdateOnByte(bits: seq<bool>, i: nat, v: bool)
    requires i < |bits|
    ensures MaskByte(bits[i := v]) + (if bits[i] then Pow2(i) else 0) == MaskByte(bits) + if v then Pow2(i) else 0
  {
    if i > 0 {
      assert bits[i := v][1..] == bits[1..][i - 1 := v];
      BitUpdateOnByte(bits[1..], i - 1, v);
    } else {
      assert bits[i := v][1..] == bits[1..];
    }
  }

  class Pic {
    var master: seq<bool>
    var slave: seq<bool>
    /** The lines whose last call was enable. */
    ghost var enabled: set<int>

    /** The two masks represent exactly the enabled lines. */
    ghost predicate Valid()
      reads this
    {
      && |master| == 8 && |slave| == 8
      && forall irq :: irq in enabled <==> 0 <= irq <= MAX_IRQ && Unmasked(irq)
    }

    predicate Unmasked(irq: int)
      requires 0 <= irq <= MAX_IRQ && |master| == 8 && |slave| == 8
      reads this
    {
      if irq < 8 then !master[irq] else !slave[irq - 8]
    }

    /** i8259_init leaves only the cascade line enabled. */
    constructor ()
      ensures Valid() && enabled == {CASCADE_IRQ}
      ensures MaskByte(master) == 0xFB && MaskByte(slave) == 0xFF
    {
      master := [true, true, false, true, true, true, true, true];
      slave := [true, true, true, true, true, true, true, true];
      enabled := {CASCADE_IRQ};
      new;
      InitialMasks();
    }

    static lemma InitialMasks()
      ensures MaskByte([true, true, false, true, true, true, true, true]) == 0xFB
      ensures MaskByte([true, true, true, true, true, true, true, true]) == 0xFF
    {
      assert MaskByte([true, true]) == 3;
      assert MaskByte([true, true, true, true]) == 15;
      assert MaskByte([true, true, true, true, true]) == 31;
      assert MaskByte([true, true, true, true, true, true]) == 63;
      assert MaskByte([false, true, true, true, true, true]) == 62;
      assert MaskByte([true, false, true, true, true, true, true]) == 125;
      assert MaskByte([true, true, true, true, true, true, true]) == 127;
    }

    method EnableIrq(irq: int)
      requires Valid()
      modifies this
      ensures Valid()
      ensures enabled == if 0 <= irq <= MAX_IRQ then old(enabled) + {irq} else old(enabled)
    {
      if irq < 0 || irq > MAX_IRQ {
        return;
      }
      if irq < 8 {
        master := master[irq := false];
      } else {
        slave := slave[irq - 8 := false];
      }
      enabled := enabled + {irq};
    }

    method DisableIrq(irq: int)
      requires Valid()
      modifies this
      ensures Valid()
      ensures enabled == if 0 <= irq <= MAX_IRQ then old(enabled) - {irq} else old(enabled)
    {
      if irq < 0 || irq > MAX_IRQ {
        return;
      }
      if irq < 8 {
        master := master[irq := true];
      } else {
        slave := slave[irq - 8 := true];
      }
      enabled := enabled - {irq};
    }

    /** Fully nested mode of the 8259A: a request is served when its line is unmasked and no pending
        unmasked line has a smaller number. */
    predicate Serves(irq: int, pending: set<int>)
      requires 0 <= irq <= MAX_IRQ && |master| == 8 && |slave| == 8
      reads this
    {
      irq in pending && Unmasked(irq) && forall j | 0 <= j < irq :: j in pending ==> !Unmasked(j)
    }
  }
}
