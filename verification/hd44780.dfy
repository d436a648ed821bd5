/**
 * The receiving side of the 4-bit interface, used as an independent reading of
 * what the driver puts on the bus: the HD44780 samples D4-D7 and RS when EN
 * falls, and in 4-bit mode pairs consecutive nibbles into one byte, high
 * nibble first.
 */
module Hd44780 {
  import opened Expander
  import opened Transport

  /** A nibble sampled on an EN falling edge. */
  datatype Nibble = Nibble(value: bv8, rs: bool)

  /** The nibbles latched by a stream of expander bytes: an EN-high byte
      followed by the same byte with only EN dropped is one falling edge. */
  function Latch(ws: seq<bv8>): (ns: seq<Nibble>)
    ensures |ns| <= |ws| / 2
    decreases |ws|
  {
    if |ws| < 2 then []
    else if EnOf(ws[0]) && ws[1] == ws[0] & !EN then
      [Nibble(DataOf(ws[0]), RsOf(ws[0]))] + Latch(ws[2..])
    else Latch(ws[1..])
  }

  /** Pairs latched nibbles into transfers, the register chosen by the RS line
      of the high nibble. */
  function Join(ns: seq<Nibble>): (ops: seq<Op>)
    ensures |ops| == |ns| / 2
    decreases |ns|
  {
    if |ns| < 2 then []
    else
      var code := (ns[0].value << 4) | (ns[1].value & 0x0F);
      [if ns[0].rs then Char(code) else Command(code)] + Join(ns[2..])
  }

  /** The two nibbles one transfer carries. */
  function NibblesOf(op: Op): seq<Nibble>
  {
    [Nibble(op.code >> 4, op.Char?), Nibble(op.code & 0x0F, op.Char?)]
  }

  /** The controller latches exactly the two nibbles of an encoded transfer,
      whatever follows it. */
  lemma LatchEncode(op: Op, rest: seq<bv8>)
    ensures Latch(Encode(op) + rest) == NibblesOf(op) + Latch(rest)
  {
  }

  /** A byte is rebuilt from its high and low nibbles. */
  lemma SplitJoin(c: bv8)
    ensures ((c >> 4) << 4) | ((c & 0x0F) & 0x0F) == c
  {
  }

  /** The nibbles of a sequence of transfers, in transfer order. */
  function NibblesAll(ops: seq<Op>): (ns: seq<Nibble>)
    ensures |ns| == 2 * |ops|
  {
    if |ops| == 0 then [] else NibblesOf(ops[0]) + NibblesAll(ops[1..])
  }

  /** What the controller latches from the bytes written for `ops` on an
      always-acknowledging bus is their nibbles, high before low, in order. */
  lemma {:induction false} LatchEncodeAll(ops: seq<Op>)
    ensures Latch(EncodeAll(ops)) == NibblesAll(ops)
    decreases |ops|
  {
    if |ops| > 0 {
      assert EncodeAll(ops) == Encode(ops[0]) + EncodeAll(ops[1..]);
      LatchEncode(ops[0], EncodeAll(ops[1..]));
      LatchEncodeAll(ops[1..]);
    }
  }

  /** Pairing the nibbles of `ops` rebuilds `ops`: each transfer's byte and
      register select survive the split into two nibbles. */
  lemma {:induction false} JoinNibbles(ops: seq<Op>)
    ensures Join(NibblesAll(ops)) == ops
    decreases |ops|
  {
    if |ops| > 0 {
      var ns := NibblesAll(ops);
      assert ns == NibblesOf(ops[0]) + NibblesAll(ops[1..]);
      assert ns[2..] == NibblesAll(ops[1..]);
      SplitJoin(ops[0].code);
      JoinNibbles(ops[1..]);
      assert Join(ns) == [ops[0]] + Join(ns[2..]);
      assert ops == [ops[0]] + ops[1..];
    }
  }

  /** Round trip: decoding the bytes the driver writes for a sequence of
      transfers on an always-acknowledging bus gives back that sequence. */
  lemma DecodeEncodeAll(ops: seq<Op>)
    ensures Join(Latch(EncodeAll(ops))) == ops
  {
    LatchEncodeAll(ops);
    JoinNibbles(ops);
  }
}
