/**
 * `lcd_init_sequence`: the HD44780 "initializing by instruction" procedure for
 * the 4-bit interface. Three function-set nibbles 0x3 force 8-bit mode from any
 * power-on state, nibble 0x2 switches to 4-bit mode, then four full commands
 * configure and clear the display. The sequence has no branches: a bus failure
 * only shortens the nibble pulse it happens in.
 */
module Init {
  import opened Bus
  import opened Transport
  import opened Hd44780

  const FUNCTION_SET: bv8 := 0x28    // 4-bit interface, 2 lines, 5x8 font
  const DISPLAY_ON: bv8 := 0x0C      // display on, cursor and blink off
  const ENTRY_MODE: bv8 := 0x06      // increment address, no display shift
  const CLEAR: bv8 := 0x01           // clear display, cursor home

  /** The configuration commands sent once the interface is in 4-bit mode. */
  const SETUP: seq<Op> :=
    [Command(FUNCTION_SET), Command(DISPLAY_ON), Command(ENTRY_MODE), Command(CLEAR)]

  /** The bytes of the whole sequence on a bus that acknowledges everything:
      the reset nibbles, then the setup commands. */
  const RESET_WRITES: seq<bv8> := [0x3C, 0x38, 0x3C, 0x38, 0x3C, 0x38, 0x2C, 0x28]
  const SETUP_WRITES: seq<bv8> :=
    [0x2C, 0x28, 0x8C, 0x88,
     0x0C, 0x08, 0xCC, 0xC8,
     0x0C, 0x08, 0x6C, 0x68,
     0x0C, 0x08, 0x1C, 0x18]
  const INIT_WRITES: seq<bv8> := RESET_WRITES + SETUP_WRITES

  /** A nibble pulse followed by a wait of `us` microseconds. */
  function NibbleThenWait(ok: Oracle, k: nat, nibble: bv8, us: nat): (e: Trace)
    ensures Writes(e) == Pulse(nibble, false, ok(k))
    ensures e[|e| - 1] == Delay(us)
  {
    var pulse := SendNibble(ok, k, nibble, false);
    WritesConcat(pulse, [Delay(us)]);
    pulse + [Delay(us)]
  }

  /** The 4-bit reset idiom: nibble 0x3 three times with waits of 5 ms,
      200 us and 200 us after them, then nibble 0x2 with no wait. */
  function ResetNibbles(ok: Oracle, k: nat): (e: Trace)
    ensures 4 <= |Writes(e)| <= 8
  {
    var e1 := NibbleThenWait(ok, k, 0x03, 5000);
    var k1 := k + |Writes(e1)|;
    var e2 := NibbleThenWait(ok, k1, 0x03, 200);
    var k2 := k1 + |Writes(e2)|;
    var e3 := NibbleThenWait(ok, k2, 0x03, 200);
    var k3 := k2 + |Writes(e3)|;
    var e4 := SendNibble(ok, k3, 0x02, false);
    InOrder(e1, e2, e3, e4)
  }

  /** Four traces one after the other; their writes are concatenated. */
  function InOrder(e1: Trace, e2: Trace, e3: Trace, e4: Trace): (e: Trace)
    ensures Writes(e) == Writes(e1) + Writes(e2) + Writes(e3) + Writes(e4)
  {
    WritesConcat(e1, e2);
    WritesConcat(e1 + e2, e3);
    WritesConcat(e1 + e2 + e3, e4);
    e1 + e2 + e3 + e4
  }

  /** The power-on waits around the two phases: 50 ms before, 5 ms after. */
  function Bracket(reset: Trace, setup: Trace): (e: Trace)
    ensures |e| > 1 && e[0] == Delay(50000) && e[|e| - 1] == Delay(5000)
    ensures Writes(e) == Writes(reset) + Writes(setup)
  {
    var before: Trace := [Delay(50000)];
    var after: Trace := [Delay(5000)];
    assert Writes(before) == [] && Writes(after) == [];
    WritesConcat(setup, after);
    WritesConcat(reset, setup + after);
    WritesConcat(before, reset + (setup + after));
    before + (reset + (setup + after))
  }

  /** The whole power-on sequence: a 50 ms wait, the reset nibbles, the four
      setup commands and a final 5 ms wait. Whatever the bus does, every one of
      the twelve nibble pulses is attempted, so between 12 and 24 bytes are
      written, the reset nibbles' before the commands'. */
  function InitSequence(ok: Oracle, k: nat): (e: Trace)
    ensures |e| > 1 && e[0] == Delay(50000) && e[|e| - 1] == Delay(5000)
    ensures 12 <= |Writes(e)| <= 24
  {
    var reset := ResetNibbles(ok, k);
    Bracket(reset, Exec(ok, k + |Writes(reset)|, SETUP))
  }

  /** With every write acknowledged, the reset nibbles put exactly the eight
      bytes 3C 38 3C 38 3C 38 2C 28 on the bus. */
  lemma ResetAllAck(k: nat)
    ensures Writes(ResetNibbles(AlwaysAck, k)) == RESET_WRITES
  {
    var e1 := NibbleThenWait(AlwaysAck, k, 0x03, 5000);
    var e2 := NibbleThenWait(AlwaysAck, k + 2, 0x03, 200);
    var e3 := NibbleThenWait(AlwaysAck, k + 4, 0x03, 200);
    var e4 := SendNibble(AlwaysAck, k + 6, 0x02, false);
    assert Writes(e1) == [0x3C, 0x38];
    assert Writes(e2) == [0x3C, 0x38];
    assert Writes(e3) == [0x3C, 0x38];
    assert Writes(e4) == [0x2C, 0x28];
    WritesConcat(e1, e2);
    WritesConcat(e1 + e2, e3);
    WritesConcat(e1 + e2 + e3, e4);
  }

  /** The setup commands encode to the last sixteen of the init bytes. */
  lemma SetupEncoding()
    ensures EncodeAll(SETUP) == SETUP_WRITES
  {
    assert EncodeAll(SETUP[3..]) == [0x0C, 0x08, 0x1C, 0x18];
    assert EncodeAll(SETUP[2..]) == [0x0C, 0x08, 0x6C, 0x68] + EncodeAll(SETUP[3..]);
    assert EncodeAll(SETUP[1..]) == [0x0C, 0x08, 0xCC, 0xC8] + EncodeAll(SETUP[2..]);
    assert EncodeAll(SETUP) == [0x2C, 0x28, 0x8C, 0x88] + EncodeAll(SETUP[1..]);
  }

  /** With every write acknowledged, initialisation writes exactly the 24
      bytes 3C 38 3C 38 3C 38 2C 28, then 2C 28 8C 88 (0x28), 0C 08 CC C8
      (0x0C), 0C 08 6C 68 (0x06) and 0C 08 1C 18 (0x01). */
  lemma InitAllAck(k: nat)
    ensures Writes(InitSequence(AlwaysAck, k)) == INIT_WRITES
  {
    var reset := ResetNibbles(AlwaysAck, k);
    ResetAllAck(k);
    var setup := Exec(AlwaysAck, k + 8, SETUP);
    ExecAllAck(k + 8, SETUP);
    SetupEncoding();
    assert InitSequence(AlwaysAck, k) == Bracket(reset, setup);
  }

  /** Read by the controller, the reset bytes are the nibbles 3, 3, 3 and 2,
      all with RS clear. */
  lemma ResetAsSeenByController()
    ensures Latch(RESET_WRITES)
         == [Nibble(0x3, false), Nibble(0x3, false), Nibble(0x3, false), Nibble(0x2, false)]
  {
  }

  /** Read by the controller, the setup bytes are the commands 0x28, 0x0C,
      0x06 and 0x01, in that order. */
  lemma SetupAsSeenByController()
    ensures Join(Latch(SETUP_WRITES)) == SETUP
  {
    SetupEncoding();
    DecodeEncodeAll(SETUP);
  }
}
