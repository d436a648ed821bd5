/**
 * The sysfs side of the driver: the `display` attribute's store and show
 * callbacks and the state `lcd_probe` sets up for them. The driver data is a
 * 32-byte buffer holding the last text written to the display as a C string;
 * a store saves at most 31 bytes of its input, without one trailing newline,
 * then clears the display and lays the saved text out on it.
 *
 * The device is reduced to the driver data attached to it (absent when
 * `dev_get_drvdata` would give NULL) and the bus trace so far. The oracle is
 * indexed by the number of writes already on the trace.
 */
module Store {
  import opened Bus
  import opened Transport
  import opened Hd44780
  import opened Init
  import opened Layout

  /** Kernel error numbers, returned negated. */
  const EINVAL: int := 22
  const ENOMEM: int := 12

  /** The size of the driver data's text buffer, terminator included. */
  const BUFFER_SIZE: nat := 32
  /** The longest text a store keeps. */
  const MAX_TEXT: nat := 31
  /** The wait after the clear command, in microseconds (5 ms). */
  const CLEAR_WAIT_US: nat := 5000

  /** "InitialMsg", the buffer's contents before any store. */
  const INITIAL_MSG: seq<bv8> := [0x49, 0x6E, 0x69, 0x74, 0x69, 0x61, 0x6C, 0x4D, 0x73, 0x67]
  /** "Current buffer: ", the framing of a show. */
  const SHOW_PREFIX: seq<bv8> :=
    [0x43, 0x75, 0x72, 0x72, 0x65, 0x6E, 0x74, 0x20, 0x62, 0x75, 0x66, 0x66, 0x65, 0x72, 0x3A, 0x20]

  datatype Option<T> = None | Some(value: T)

  /** The device: its driver data's text, if any is attached, and the bus. */
  datatype Device = Device(drvdata: Option<seq<bv8>>, bus: Trace)

  /** What a callback returns and the device it leaves. */
  datatype Outcome = Outcome(ret: int, dev: Device)

  /** What a show returns and the text it puts in the sysfs page. */
  datatype Reply = Reply(ret: int, text: seq<bv8>)

  /** The driver data's text fits its buffer with its terminator. */
  predicate Valid(dev: Device)
  {
    dev.drvdata.Some? ==> |dev.drvdata.value| < BUFFER_SIZE && NUL !in dev.drvdata.value
  }

  /** How many input bytes a store keeps: min(count, 31). */
  function Kept(buf: seq<bv8>): nat
  {
    if |buf| < MAX_TEXT then |buf| else MAX_TEXT
  }

  /** The kernel copy a store makes of its input: the first min(count, 31)
      bytes and a terminator, the last kept byte overwritten by a terminator
      when it is a newline. */
  function Kbuf(buf: seq<bv8>): (kb: seq<bv8>)
    ensures |kb| == Kept(buf) + 1 && Kept(buf) <= |buf|
    ensures forall i | 0 <= i < Kept(buf) - 1 :: kb[i] == buf[i]
    ensures Kept(buf) > 0 ==>
              kb[Kept(buf) - 1] == if buf[Kept(buf) - 1] == NEWLINE then NUL else buf[Kept(buf) - 1]
    ensures kb[|kb| - 1] == NUL
  {
    var len := Kept(buf);
    var copy := buf[..len] + [NUL];
    if len > 0 && copy[len - 1] == NEWLINE then copy[len - 1 := NUL] else copy
  }

  /** The text a store saves: the kernel copy read as a C string. It is the
      NUL-free prefix of the input that stops at the first NUL among the kept
      bytes, just before a newline in the last kept byte, or at the end of
      the kept bytes; and it never ends in that dropped newline. */
  function Saved(buf: seq<bv8>): (s: seq<bv8>)
    ensures |s| <= Kept(buf) && NUL !in s
    ensures s <= buf
    ensures |s| < Kept(buf) ==>
              buf[|s|] == NUL || (buf[|s|] == NEWLINE && |s| == Kept(buf) - 1)
    ensures |s| == Kept(buf) > 0 ==> buf[|s| - 1] != NEWLINE
  {
    var kb := Kbuf(buf);
    var s := CString(kb);
    assert |s| < |kb|;
    assert forall i | 0 <= i < |s| :: s[i] == buf[i] by {
      forall i | 0 <= i < |s| ensures s[i] == buf[i] {
        assert s[i] == kb[i];
        assert kb[i] != NUL by { assert kb[i] == s[i]; }
      }
    }
    assert |s| == Kept(buf) > 0 ==> kb[|s| - 1] == s[|s| - 1];
    s
  }

  /** The clear command's transfer, the 5 ms wait, then the text's. */
  function AfterClear(clear: Trace, text: Trace): (e: Trace)
    ensures Writes(e) == Writes(clear) + Writes(text)
  {
    WritesConcat(clear, [Delay(CLEAR_WAIT_US)]);
    WritesConcat(clear + [Delay(CLEAR_WAIT_US)], text);
    clear + [Delay(CLEAR_WAIT_US)] + text
  }

  /** The effect of a successful store on the bus: the clear command, a 5 ms
      wait, then the walk over the kernel copy. */
  function Refresh(ok: Oracle, k: nat, kbuf: seq<bv8>): (e: Trace)
    ensures var n := 1 + |Render(kbuf, 0).ops|;
            2 * n <= |Writes(e)| <= 4 * n
  {
    var clear := WriteCmd(ok, k, CLEAR);
    AfterClear(clear, WriteStringWrap(ok, k + |Writes(clear)|, kbuf))
  }

  /** `lcd_store`: with no driver data, -EINVAL; if the kernel copy cannot be
      allocated, -ENOMEM; both leave the device as it was. Otherwise the
      saved text replaces the buffer, the display is refreshed and the whole
      input count is returned, even when the input was truncated. */
  function Store(dev: Device, buf: seq<bv8>, allocOk: bool, ok: Oracle): (r: Outcome)
    ensures dev.bus <= r.dev.bus
    ensures r.ret == -EINVAL <==> dev.drvdata.None?
    ensures r.ret == -ENOMEM <==> dev.drvdata.Some? && !allocOk
    ensures r.ret < 0 ==> r.dev == dev
    ensures dev.drvdata.Some? && allocOk ==> r.ret == |buf| && r.dev.drvdata == Some(Saved(buf))
    ensures Valid(r.dev) || r.dev == dev
  {
    if dev.drvdata.None? then Outcome(-EINVAL, dev)
    else if !allocOk then Outcome(-ENOMEM, dev)
    else
      var kbuf := Kbuf(buf);
      var bus := dev.bus + Refresh(ok, |Writes(dev.bus)|, kbuf);
      assert dev.bus <= bus by { assert bus[..|dev.bus|] == dev.bus; }
      Outcome(|buf|, Device(Some(CString(kbuf)), bus))
  }

  /** `lcd_show`: with no driver data, -EINVAL and nothing written; otherwise
      "Current buffer: ", the buffer's C string and a newline, and their
      length. */
  function Show(dev: Device): (r: Reply)
    ensures r.ret == -EINVAL <==> dev.drvdata.None?
    ensures dev.drvdata.None? ==> r.text == []
    ensures dev.drvdata.Some? ==>
              r.ret == |r.text| > |SHOW_PREFIX| && r.text[|r.text| - 1] == NEWLINE
  {
    if dev.drvdata.None? then Reply(-EINVAL, [])
    else
      var text := SHOW_PREFIX + CString(dev.drvdata.value) + [NEWLINE];
      Reply(|text|, text)
  }

  /** `lcd_probe`, reduced to the driver's own steps: if the driver data
      cannot be allocated, -ENOMEM before anything reaches the bus;
      otherwise the buffer holds "InitialMsg" and the bus carries the
      initialisation sequence. */
  function Probe(allocOk: bool, ok: Oracle): (r: Outcome)
    ensures r.ret == 0 <==> allocOk
    ensures !allocOk ==> r == Outcome(-ENOMEM, Device(None, []))
    ensures Valid(r.dev)
    ensures allocOk ==> r.dev.drvdata == Some(INITIAL_MSG) && r.dev.bus == InitSequence(ok, 0)
    ensures allocOk ==> 12 <= |Writes(r.dev.bus)| <= 24
  {
    if !allocOk then Outcome(-ENOMEM, Device(None, []))
    else
      InitialMsgFits();
      Outcome(0, Device(Some(INITIAL_MSG), InitSequence(ok, 0)))
  }

  lemma InitialMsgFits()
    ensures |INITIAL_MSG| < BUFFER_SIZE && NUL !in INITIAL_MSG
  {
    assert forall i | 0 <= i < |INITIAL_MSG| :: INITIAL_MSG[i] != NUL;
  }

  /** On an acknowledging bus, a successful probe leaves exactly the 24
      initialisation bytes on the bus, the reset nibbles first. */
  lemma ProbeAllAck()
    ensures Writes(Probe(true, AlwaysAck).dev.bus) == INIT_WRITES
  {
    assert Probe(true, AlwaysAck).dev.bus == InitSequence(AlwaysAck, 0);
    InitAllAck(0);
  }

  // Properties of the saved text.

  /** A text that fits, has no NUL and does not end in a newline is saved
      as it is. */
  lemma SavedKeepsText(text: seq<bv8>)
    requires |text| <= MAX_TEXT && NUL !in text
    requires |text| == 0 || text[|text| - 1] != NEWLINE
    ensures Saved(text) == text
  {
  }

  /** The newline `echo` appends is dropped: text plus newline is saved as
      the text. Only one newline goes, so "a\n\n" is saved as "a\n". */
  lemma SavedDropsNewline(text: seq<bv8>)
    requires |text| < MAX_TEXT && NUL !in text
    ensures Saved(text + [NEWLINE]) == text
  {
  }

  /** The saved text ends at the first NUL of the input when that NUL is
      among the bytes kept, whatever follows it. */
  lemma SavedStopsAtNul(text: seq<bv8>, rest: seq<bv8>)
    requires |text| < MAX_TEXT && NUL !in text
    ensures Saved(text + [NUL] + rest) == text
  {
    var buf := text + [NUL] + rest;
    var s := Saved(buf);
    assert buf[|text|] == NUL;
    assert s == buf[..|s|] == text;
  }

  /** Truncation comes before the newline check: only the first 31 bytes
      matter, and a newline just past them is not seen. */
  lemma SavedTruncates(buf: seq<bv8>)
    requires |buf| > MAX_TEXT
    ensures Saved(buf) == Saved(buf[..MAX_TEXT])
  {
    assert buf[..MAX_TEXT][..MAX_TEXT] == buf[..MAX_TEXT];
  }

  /** A newline in the 31st byte is dropped even when more input follows it:
      the check looks at the last byte kept, not at the last byte given. */
  lemma SavedNewlineAtLimit(text: seq<bv8>, more: seq<bv8>)
    requires |text| == MAX_TEXT - 1 && NUL !in text && |more| > 0
    ensures Saved(text + [NEWLINE] + more) == text
  {
    var buf := text + [NEWLINE] + more;
    SavedTruncates(buf);
    assert buf[..MAX_TEXT] == text + [NEWLINE];
    SavedDropsNewline(text);
  }

  // Properties of the callbacks.

  /** The reply of a show can be parsed back: the prefix, the stored text,
      and the newline. */
  lemma ShowReadsBack(dev: Device)
    requires Valid(dev) && dev.drvdata.Some?
    ensures var t := Show(dev).text;
            |t| == |SHOW_PREFIX| + |dev.drvdata.value| + 1
            && t[..|SHOW_PREFIX|] == SHOW_PREFIX
            && t[|SHOW_PREFIX|..|t| - 1] == dev.drvdata.value
  {
    CStringOfText(dev.drvdata.value);
    var t := Show(dev).text;
    assert t == SHOW_PREFIX + dev.drvdata.value + [NEWLINE];
  }

  /** Before any store, a show reads back "Current buffer: InitialMsg\n". */
  lemma ShowAfterProbe(ok: Oracle)
    ensures Show(Probe(true, ok).dev)
         == Reply(|SHOW_PREFIX| + |INITIAL_MSG| + 1, SHOW_PREFIX + INITIAL_MSG + [NEWLINE])
  {
    CStringOfText(INITIAL_MSG);
  }

  /** A show after a successful store reads back the saved text. */
  lemma ShowAfterStore(dev: Device, buf: seq<bv8>, ok: Oracle)
    requires dev.drvdata.Some?
    ensures Show(Store(dev, buf, true, ok).dev)
         == Reply(|SHOW_PREFIX| + |Saved(buf)| + 1, SHOW_PREFIX + Saved(buf) + [NEWLINE])
  {
    CStringOfText(Saved(buf));
  }

  /** Round trip through the attribute: writing a short line with `echo`
      and reading the attribute back gives that line, framed. */
  lemma EchoThenShow(dev: Device, text: seq<bv8>, ok: Oracle)
    requires dev.drvdata.Some?
    requires |text| < MAX_TEXT && NUL !in text
    ensures Show(Store(dev, text + [NEWLINE], true, ok).dev).text
         == SHOW_PREFIX + text + [NEWLINE]
  {
    SavedDropsNewline(text);
    ShowAfterStore(dev, text + [NEWLINE], ok);
  }

  /** On a bus that acknowledges everything, a refresh writes the encoding
      of the clear command followed by the walk's transfers. */
  lemma RefreshWritesAllAck(k: nat, kbuf: seq<bv8>)
    ensures Writes(Refresh(AlwaysAck, k, kbuf)) == EncodeAll([Command(CLEAR)] + Render(kbuf, 0).ops)
  {
    var clear := WriteCmd(AlwaysAck, k, CLEAR);
    RunAllAck(k, Command(CLEAR));
    assert Writes(clear) == Encode(Command(CLEAR));
    var ops := Render(kbuf, 0).ops;
    var text := WriteStringWrap(AlwaysAck, k + 4, kbuf);
    ExecAllAck(k + 4, ops);
    assert Refresh(AlwaysAck, k, kbuf) == AfterClear(clear, text);
    var all := [Command(CLEAR)] + ops;
    assert all[1..] == ops;
  }

  /** On a bus that acknowledges everything, the controller reads a
      refresh as the clear command followed by the walk over the text the
      kernel copy holds. */
  lemma RefreshAllAck(k: nat, kbuf: seq<bv8>)
    ensures Join(Latch(Writes(Refresh(AlwaysAck, k, kbuf))))
         == [Command(CLEAR)] + Render(CString(kbuf), 0).ops
  {
    RefreshWritesAllAck(k, kbuf);
    DecodeEncodeAll([Command(CLEAR)] + Render(kbuf, 0).ops);
    RenderStopsAtNul(kbuf, 0);
  }

  /** What a successful store appends to the bus is the refresh of its
      kernel copy. */
  lemma StoreAppends(dev: Device, buf: seq<bv8>, ok: Oracle)
    requires dev.drvdata.Some?
    ensures Store(dev, buf, true, ok).dev.bus[|dev.bus|..]
         == Refresh(ok, |Writes(dev.bus)|, Kbuf(buf))
  {
    var e := Refresh(ok, |Writes(dev.bus)|, Kbuf(buf));
    assert Store(dev, buf, true, ok).dev.bus == dev.bus + e;
  }

  /** On a bus that acknowledges everything, what a successful store adds to
      the bus reads, on the controller's side, as the clear command and then
      the walk over the saved text. */
  lemma StoreAllAck(dev: Device, buf: seq<bv8>)
    requires dev.drvdata.Some?
    ensures var added := Store(dev, buf, true, AlwaysAck).dev.bus[|dev.bus|..];
            Join(Latch(Writes(added))) == [Command(CLEAR)] + Render(Saved(buf), 0).ops
  {
    StoreAppends(dev, buf, AlwaysAck);
    RefreshAllAck(|Writes(dev.bus)|, Kbuf(buf));
  }

  /** On a bus that acknowledges everything, the characters a successful
      store writes to the display are the saved text without its newlines. */
  lemma StorePrints(dev: Device, buf: seq<bv8>)
    requires dev.drvdata.Some?
    ensures var added := Store(dev, buf, true, AlwaysAck).dev.bus[|dev.bus|..];
            Printed(Join(Latch(Writes(added)))) == DropNewlines(Saved(buf))
  {
    StoreAllAck(dev, buf);
    var ops := Render(Saved(buf), 0).ops;
    RenderPrints(Saved(buf), 0);
    CStringOfText(Saved(buf));
    assert Printed([Command(CLEAR)]) == [];
    PrintedConcat([Command(CLEAR)], ops);
  }
}
