/**
 * The HD44780 4-bit transfer over the expander: a nibble is latched by an
 * enable pulse (two writes), a full command or character byte is two nibble
 * pulses, most significant first. Bus failures are never reported upward: a
 * failed write only ends the nibble pulse it belongs to.
 *
 * Each operation takes the oracle and `k`, the number of write attempts made
 * before it, and returns the events it appends to the trace.
 */
module Transport {
  import opened Bus
  import opened Expander

  /** Settle time after each half of an enable pulse, in microseconds. */
  const PULSE_SETTLE_US: nat := 50
  /** Completion wait after a command byte (2 ms) and after a character byte (1 ms). */
  const COMMAND_WAIT_US: nat := 2000
  const CHAR_WAIT_US: nat := 1000

  /** One transfer of the controller's 4-bit interface. */
  datatype Op =
    | Command(code: bv8)   // RS = 0: an instruction
    | Char(code: bv8)      // RS = 1: a character written to display RAM

  /** The writes a nibble pulse leaves on the bus, given whether its EN-high
      write was acknowledged: a failed EN-high write is the only one. */
  function Pulse(nibble: bv8, rs: bool, acked: bool): (p: seq<bv8>)
    ensures 1 <= |p| <= 2 && p[0] == EnHigh(nibble, rs)
  {
    if acked then [EnHigh(nibble, rs), EnLow(nibble, rs)] else [EnHigh(nibble, rs)]
  }

  /** The second half of a pulse whose EN-high write was acknowledged: the
      settle delay, the EN-low write and, if that is acknowledged, the settle
      delay after it. */
  function FallingEdge(low: bv8, acked: bool): (e: Trace)
    ensures Writes(e) == [low]
  {
    var settle: Trace := if acked then [Delay(PULSE_SETTLE_US)] else [];
    assert Writes(settle) == [];
    WritesConcat([Write(low)], settle);
    WritesConcat([Delay(PULSE_SETTLE_US)], [Write(low)] + settle);
    [Delay(PULSE_SETTLE_US)] + ([Write(low)] + settle)
  }

  /** `lcd_send_nibble`: raise EN with the nibble on D4-D7, then lower it.
      If the EN-high write is not acknowledged nothing else happens; a failed
      EN-low write skips only the settle delay after it. */
  function SendNibble(ok: Oracle, k: nat, nibble: bv8, rs: bool): (e: Trace)
    ensures Writes(e) == Pulse(nibble, rs, ok(k))
    ensures !ok(k) ==> e == [Write(EnHigh(nibble, rs))]
  {
    var data := EnHigh(nibble, rs);
    if !ok(k) then [Write(data)]
    else
      var tail := FallingEdge(data & !EN, ok(k + 1));
      WritesConcat([Write(data)], tail);
      [Write(data)] + tail
  }

  /** The writes a byte transfer leaves on the bus when its first write is the
      k-th attempt: the high nibble's pulse, then the low nibble's pulse, which
      is attempted whatever became of the high one. */
  function BytePulses(ok: Oracle, k: nat, b: bv8, rs: bool): (ws: seq<bv8>)
    ensures 2 <= |ws| <= 4
  {
    var high := Pulse(b >> 4, rs, ok(k));
    high + Pulse(b & 0x0F, rs, ok(k + |high|))
  }

  /** The writes of the two nibble pulses of a byte are its byte pulses. */
  lemma NibblesWrites(ok: Oracle, k: nat, b: bv8, rs: bool)
    ensures var high := SendNibble(ok, k, b >> 4, rs);
            var low := SendNibble(ok, k + |Writes(high)|, b & 0x0F, rs);
            Writes(high) + Writes(low) == BytePulses(ok, k, b, rs)
  {
  }

  /** Two traces, then a wait of `us` microseconds. */
  function ThenWait(first: Trace, second: Trace, us: nat): (e: Trace)
    ensures Writes(e) == Writes(first) + Writes(second)
    ensures |e| > 0 && e[|e| - 1] == Delay(us)
  {
    var wait: Trace := [Delay(us)];
    assert Writes(wait) == [];
    WritesConcat(second, wait);
    WritesConcat(first, second + wait);
    first + (second + wait)
  }

  /** Both nibbles of `b`, high first, then a wait of `us` microseconds. */
  function SendByte(ok: Oracle, k: nat, b: bv8, rs: bool, us: nat): (e: Trace)
    ensures Writes(e) == BytePulses(ok, k, b, rs)
    ensures |e| > 0 && e[|e| - 1] == Delay(us)
  {
    var high := SendNibble(ok, k, b >> 4, rs);
    NibblesWrites(ok, k, b, rs);
    ThenWait(high, SendNibble(ok, k + |Writes(high)|, b & 0x0F, rs), us)
  }

  /** `lcd_write_cmd`: the command byte with RS clear, then a 2 ms wait. */
  function WriteCmd(ok: Oracle, k: nat, cmd: bv8): (e: Trace)
    ensures Writes(e) == BytePulses(ok, k, cmd, false)
    ensures |e| > 0 && e[|e| - 1] == Delay(COMMAND_WAIT_US)
  {
    SendByte(ok, k, cmd, false, COMMAND_WAIT_US)
  }

  /** `lcd_write_data`: the character byte with RS set, then a 1 ms wait. */
  function WriteData(ok: Oracle, k: nat, ch: bv8): (e: Trace)
    ensures Writes(e) == BytePulses(ok, k, ch, true)
    ensures |e| > 0 && e[|e| - 1] == Delay(CHAR_WAIT_US)
  {
    SendByte(ok, k, ch, true, CHAR_WAIT_US)
  }

  /** A failed high-nibble write does not stop a byte transfer: the low
      nibble's pulse is still attempted, as the very next write. */
  lemma FailedHighNibble(ok: Oracle, k: nat, b: bv8, rs: bool, us: nat)
    requires !ok(k)
    ensures Writes(SendByte(ok, k, b, rs, us)) == [EnHigh(b >> 4, rs)] + Pulse(b & 0x0F, rs, ok(k + 1))
  {
  }

  /** One transfer, through the primitive the source uses for it. */
  function Run(ok: Oracle, k: nat, op: Op): (e: Trace)
    ensures Writes(e) == BytePulses(ok, k, op.code, op.Char?)
  {
    match op
    case Command(c) => WriteCmd(ok, k, c)
    case Char(c) => WriteData(ok, k, c)
  }

  /** A sequence of transfers, in order. Whatever the bus does, every
      transfer is attempted and puts between two and four bytes on the bus. */
  function Exec(ok: Oracle, k: nat, ops: seq<Op>): (e: Trace)
    ensures 2 * |ops| <= |Writes(e)| <= 4 * |ops|
    decreases |ops|
  {
    if |ops| == 0 then []
    else
      var first := Run(ok, k, ops[0]);
      var rest := Exec(ok, k + |Writes(first)|, ops[1..]);
      WritesConcat(first, rest);
      first + rest
  }

  // The bytes a transfer puts on a bus that acknowledges everything.

  function Encode(op: Op): seq<bv8>
  {
    var rs := op.Char?;
    [EnHigh(op.code >> 4, rs), EnLow(op.code >> 4, rs),
     EnHigh(op.code & 0x0F, rs), EnLow(op.code & 0x0F, rs)]
  }

  function EncodeAll(ops: seq<Op>): (ws: seq<bv8>)
    ensures |ws| == 4 * |ops|
  {
    if |ops| == 0 then [] else Encode(ops[0]) + EncodeAll(ops[1..])
  }

  /** With every write acknowledged, a nibble pulse is EN-high, settle,
      EN-low, settle. */
  lemma NibbleAllAck(k: nat, nibble: bv8, rs: bool)
    ensures SendNibble(AlwaysAck, k, nibble, rs)
         == [Write(EnHigh(nibble, rs)), Delay(PULSE_SETTLE_US),
             Write(EnLow(nibble, rs)), Delay(PULSE_SETTLE_US)]
  {
  }

  /** On a bus that acknowledges everything, a transfer writes exactly its
      four encoded bytes: high nibble pulse, then low nibble pulse. */
  lemma RunAllAck(k: nat, op: Op)
    ensures Writes(Run(AlwaysAck, k, op)) == Encode(op)
  {
  }

  /** On a bus that acknowledges everything, running transfers writes exactly
      the concatenation of their encodings. */
  lemma {:induction false} ExecAllAck(k: nat, ops: seq<Op>)
    ensures Writes(Exec(AlwaysAck, k, ops)) == EncodeAll(ops)
    decreases |ops|
  {
    if |ops| > 0 {
      var first := Run(AlwaysAck, k, ops[0]);
      var rest := Exec(AlwaysAck, k + |Writes(first)|, ops[1..]);
      WritesConcat(first, rest);
      RunAllAck(k, ops[0]);
      ExecAllAck(k + |Writes(first)|, ops[1..]);
    }
  }
}
