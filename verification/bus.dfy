/**
 * The I2C side of the PCF8574 backpack, reduced to what the driver can observe:
 * an append-only trace of single-byte write attempts (and the delays between
 * them), plus an oracle that stands for the result of each `pcf8574_send`.
 * Every operation of the driver is modelled as the events it appends, given
 * the number of write attempts made before it.
 */
module Bus {

  /** One thing the driver does to the outside world, in order. */
  datatype Event =
    | Write(data: bv8)   // one `i2c_smbus_write_byte` attempt, acked or not
    | Delay(us: nat)     // a blocking wait of at least `us` microseconds

  type Trace = seq<Event>

  /** `ok(n)` holds when the n-th write attempt since power-on (counting from 0)
      is acknowledged by the expander, i.e. `pcf8574_send` does not return a
      negative value for it. */
  type Oracle = nat -> bool

  /** The bus on which every write succeeds. */
  function AlwaysAck(n: nat): bool
  {
    true
  }

  /** The bytes put on the bus, in order, ignoring the delays. */
  function Writes(t: Trace): (ws: seq<bv8>)
    ensures |ws| <= |t|
  {
    if |t| == 0 then []
    else (if t[0].Write? then [t[0].data] else []) + Writes(t[1..])
  }

  /** Projecting a concatenation of traces onto its writes distributes. */
  lemma {:induction false} WritesConcat(a: Trace, b: Trace)
    ensures Writes(a + b) == Writes(a) + Writes(b)
    decreases |a|
  {
    if |a| == 0 {
      assert a + b == b;
    } else {
      var head: seq<bv8> := if a[0].Write? then [a[0].data] else [];
      assert (a + b)[0] == a[0];
      assert (a + b)[1..] == a[1..] + b;
      WritesConcat(a[1..], b);
      assert Writes(a + b) == head + Writes(a[1..] + b);
      assert Writes(a) == head + Writes(a[1..]);
    }
  }
}
