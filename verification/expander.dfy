/**
 * The PCF8574 output byte as wired on this backpack: the four data lines D4-D7
 * of the HD44780 on bits 4-7, register select on bit 0, enable on bit 2 and the
 * backlight on bit 3. Bit 1 (the controller's R/W line) is never driven high.
 */
module Expander {

  const RS: bv8 := 0x01
  const EN: bv8 := 0x04
  const BACKLIGHT: bv8 := 0x08

  /** The byte carrying `nibble` (only its low four bits count), with RS set for
      character data and the backlight on, before the enable bit is touched. */
  function Pack(nibble: bv8, rs: bool): (b: bv8)
    ensures DataOf(b) == nibble & 0x0F && RsOf(b) == rs
    ensures BacklightOf(b) && !EnOf(b) && !ReadWriteOf(b)
  {
    var data := (nibble & 0x0F) << 4;
    var data := if rs then data | RS else data;
    data | BACKLIGHT
  }

  /** The first write of a nibble pulse: EN raised. */
  function EnHigh(nibble: bv8, rs: bool): (b: bv8)
    ensures DataOf(b) == nibble & 0x0F && RsOf(b) == rs
    ensures BacklightOf(b) && EnOf(b) && !ReadWriteOf(b)
  {
    Pack(nibble, rs) | EN
  }

  /** The second write of a nibble pulse: the EN-high byte with EN cleared again. */
  function EnLow(nibble: bv8, rs: bool): (b: bv8)
    ensures DataOf(b) == nibble & 0x0F && RsOf(b) == rs
    ensures BacklightOf(b) && !EnOf(b) && !ReadWriteOf(b)
    ensures b ^ EnHigh(nibble, rs) == EN
  {
    EnHigh(nibble, rs) & !EN
  }

  // Decoding: what each output line of the expander carries.

  function DataOf(b: bv8): bv8 { b >> 4 }
  predicate RsOf(b: bv8) { b & RS == RS }
  predicate EnOf(b: bv8) { b & EN == EN }
  predicate BacklightOf(b: bv8) { b & BACKLIGHT == BACKLIGHT }
  predicate ReadWriteOf(b: bv8) { b & 0x02 == 0x02 }

  /** The line values decoded above determine a pulse byte completely: a byte
      is the EN-high byte of a nibble exactly when it carries that nibble's low
      four bits, the given RS, the backlight and EN, with R/W off; likewise for
      the EN-low byte with EN off. */
  lemma PulseDetermined(b: bv8, nibble: bv8, rs: bool)
    ensures b == EnHigh(nibble, rs) <==>
              DataOf(b) == nibble & 0x0F && RsOf(b) == rs && BacklightOf(b) && EnOf(b) && !ReadWriteOf(b)
    ensures b == EnLow(nibble, rs) <==>
              DataOf(b) == nibble & 0x0F && RsOf(b) == rs && BacklightOf(b) && !EnOf(b) && !ReadWriteOf(b)
  {
  }

  /** The EN-high byte depends on the nibble only through its low four bits, and
      distinct (low nibble, RS) pairs give distinct bytes. */
  lemma PulseInjective(n1: bv8, rs1: bool, n2: bv8, rs2: bool)
    ensures EnHigh(n1, rs1) == EnHigh(n2, rs2) <==> (n1 & 0x0F == n2 & 0x0F && rs1 == rs2)
  {
  }
}
