# HD44780 over a PCF8574 backpack, in Dafny

This project models the core of `lcd.c`, a Linux I2C driver. The driver runs a
16x2 HD44780 character LCD in 4-bit mode through a PCF8574 I/O expander. The
expander's eight output lines carry the controller's data lines D4-D7 (bits
4-7), register select RS (bit 0), enable EN (bit 2) and the backlight (bit 3).
Every action of the driver becomes an ordered trace of single-byte expander
writes, with delays between them. The model builds that trace with pure
functions.

- `Bus` holds the trace: `Write(byte)` and `Delay(us)` events. An oracle
  `nat -> bool` says whether the n-th write attempt since power-on is
  acknowledged. Every transport, initialisation and layout operation returns
  the events it appends, given the number of writes made before it. The
  callbacks in `Store` return the whole device, its trace included.
- `Expander` holds the byte encoding of a nibble pulse (`lcd_send_nibble`,
  lines 83-95).
- `Transport` holds the nibble pulse with its early return on a failed write,
  and the command and character transfers (`lcd_write_cmd`, `lcd_write_data`).
- `Hd44780` is the controller's side, kept independent of the driver. It
  latches a nibble only where a byte with EN high is immediately followed by
  the same byte with EN cleared, and pairs the latched nibbles into bytes.
  Any other byte is skipped. Decoding the driver's bytes with it gives back
  the transfers the driver meant to send.
- `Init` holds the power-on sequence (`lcd_init_sequence`).
- `Layout` holds the 16-column text walk (`lcd_write_string_wrap`). It is
  split into `Render`, the transfers plus the final column, and
  `Transport.Exec`, which puts them on the bus. The column counter never
  depends on the bus, so this split gives the same writes as the source's
  single loop. `Fill` is an independent reference definition of line filling.
- `Store` holds the sysfs callbacks `lcd_store` and `lcd_show`, and the
  driver state that `lcd_probe` sets up.

Points where the code's behaviour is easy to misread, as the model states it:

- Bus errors never reach a caller. `lcd_send_nibble` returns `void`. A failed
  EN-high write ends only that nibble's pulse. Both nibbles of a byte are
  always attempted, every transfer of a walk is attempted, and `lcd_store`
  returns the input count.
- A line without newlines gets `len / 16` automatic row advances, rounded
  down, not `ceil(len / 16) - 1`. A text of exactly 16 characters therefore
  ends with a row advance (lines 128-132).
- RS is bit 0 (mask `0x01`, line 88). The comment on line 86 names bit 1;
  the model follows the mask.
- `lcd_store` truncates to 31 bytes first and only then removes a trailing
  newline (lines 182-194). A newline in byte 32 is cut off by the truncation;
  a newline in byte 31 is removed.
- The saved text and the walk both stop at the first NUL (`strcpy`, line 198;
  `while (*str)`, line 121).

## Model

| member | source | states |
|---|---|---|
| Expander.EnHigh | lcd.c:83-91 | The EN-high byte carries the low four bits of the nibble on D4-D7, RS exactly when a character is sent, the backlight and EN on, and R/W (bit 1) off |
| Expander.EnLow | lcd.c:95 | The EN-low byte has the same data, RS and backlight, with EN and R/W off; it differs from the EN-high byte in the EN bit alone |
| Expander.PulseDetermined | lcd.c:83-95 | The decoded lines pin a pulse byte down completely: a byte is the EN-high byte of (nibble, RS) if and only if it carries the nibble's low four bits on D4-D7, that RS, the backlight and EN, with R/W off; and the EN-low byte if and only if the same holds with EN off |
| Expander.PulseInjective | lcd.c:83-91 | The EN-high byte depends on the nibble only through its low four bits, and distinct (low nibble, RS) pairs give distinct bytes |
| Transport.SendNibble | lcd.c:80-98 | A nibble pulse writes EN-high then EN-low; if the EN-high write fails it is the only write, and nothing follows it |
| Transport.NibbleAllAck | lcd.c:91-97 | On an acknowledging bus a pulse is exactly: EN-high write, 50 us, EN-low write, 50 us |
| Transport.SendByte | lcd.c:101-114 | A byte transfer writes the high nibble's pulse, then the low nibble's pulse, then waits the given time |
| Transport.FailedHighNibble | lcd.c:101-104 | A failed high-nibble write does not stop the byte: the low nibble's pulse is the very next write |
| Transport.WriteCmd | lcd.c:101-106 | A command is its two nibble pulses with RS clear, followed by a 2 ms wait |
| Transport.WriteData | lcd.c:109-114 | A character is its two nibble pulses with RS set, followed by a 1 ms wait |
| Transport.Exec | lcd.c:117-136 | Every transfer is attempted whatever the bus does: n transfers put between 2n and 4n bytes on the bus |
| Transport.RunAllAck | lcd.c:101-114 | On an acknowledging bus a transfer writes exactly four bytes: EN-high and EN-low of the high nibble, then of the low nibble |
| Transport.ExecAllAck | lcd.c:117-136 | On an acknowledging bus a sequence of transfers writes exactly the concatenation of their four-byte encodings |
| Hd44780.LatchEncode | lcd.c:80-114 | The controller latches exactly the two nibbles of an encoded transfer, high then low, whatever bytes follow |
| Hd44780.JoinNibbles | lcd.c:101-114 | Pairing the latched nibbles rebuilds each transfer's byte and register |
| Hd44780.DecodeEncodeAll | lcd.c:80-114 | Round trip: the controller decodes the driver's bytes for any sequence of transfers back into that sequence |
| Init.InitSequence | lcd.c:141-157 | Initialisation starts with the 50 ms wait and ends with the 5 ms wait; all twelve nibble pulses are attempted, so 12 to 24 bytes are written |
| Init.ResetNibbles | lcd.c:143-150 | The reset idiom attempts all four nibble pulses whatever the bus does, so it writes between 4 and 8 bytes |
| Init.ResetAllAck | lcd.c:143-150 | On an acknowledging bus the reset nibbles are the bytes 3C 38 3C 38 3C 38 2C 28 |
| Init.SetupEncoding | lcd.c:152-155 | The commands 0x28, 0x0C, 0x06, 0x01 encode to 2C 28 8C 88 0C 08 CC C8 0C 08 6C 68 0C 08 1C 18 |
| Init.InitAllAck | lcd.c:141-157 | On an acknowledging bus initialisation writes exactly those 24 bytes, reset nibbles first |
| Init.ResetAsSeenByController | lcd.c:144-150 | The controller latches the reset bytes as the nibbles 3, 3, 3, 2 with RS clear |
| Init.SetupAsSeenByController | lcd.c:152-155 | The controller decodes the setup bytes as the commands 0x28, 0x0C, 0x06, 0x01, in that order |
| Layout.CString | lcd.c:121 | The C string of a byte array is the prefix before its first NUL; it holds no NUL, and a NUL follows it when it is shorter than the array |
| Layout.Render | lcd.c:117-137 | The column counter stays in 0..15, and the only command the walk emits is the row advance 0xC0 |
| Layout.WriteStringWrap | lcd.c:117-137 | Every transfer of the walk is attempted on the bus: between 2 and 4 writes per transfer in total |
| Layout.RenderStopsAtNul | lcd.c:121 | The walk depends only on the bytes before the first NUL |
| Layout.RenderPrints | lcd.c:121-135 | The characters written, in order, are the input up to its first NUL with the newlines removed |
| Layout.RenderNewline | lcd.c:122-125 | A newline emits exactly one row advance and restarts the walk at column 0, whatever column it was reached in |
| Layout.RenderFills | lcd.c:126-133 | Without newlines, the walk from column c equals the reference line filling with 16 - c characters of room |
| Layout.RenderColumn | lcd.c:126-133 | Without newlines, the walk from column c ends in column (c + len) mod 16 |
| Layout.AutoWrap | lcd.c:126-133 | A newline-free text from column 0 gets exactly len / 16 row advances, one right after each 16th character |
| Layout.AutoWrapColumn | lcd.c:126-133 | A newline-free text from column 0 ends in column len mod 16 |
| Layout.ShortLine | lcd.c:126-133 | A newline-free text shorter than a row is written as is, with no row advance |
| Layout.TwoShortLines | lcd.c:119-136 | Two short lines joined by a newline, as in "Hi\nThere": first line, one row advance, second line; it ends in the column after the last character |
| Layout.FullRow | lcd.c:128-132 | A 16-character text ends with a row advance, back in column 0 |
| Layout.RowOverflow | lcd.c:128-132 | In a 17-character text the row advance falls between the 16th and 17th characters, ending in column 1 |
| Store.Kbuf | lcd.c:182-194 | The kernel copy holds min(count, 31) bytes plus a terminator; every kept byte but the last is the input byte, and the last kept byte is the input byte unless it is a newline, which becomes a terminator |
| Store.Saved | lcd.c:182-198 | The saved text is a NUL-free prefix of the input of at most min(count, 31) bytes. It stops at the first NUL among the kept bytes, or just before a newline that is the last kept byte, or at the end of the kept bytes; when it uses every kept byte, the last one is not a newline |
| Store.SavedStopsAtNul | lcd.c:188-198 | A NUL among the kept bytes ends the saved text there, whatever follows it |
| Store.SavedKeepsText | lcd.c:182-198 | A text of at most 31 bytes with no NUL and no trailing newline is saved unchanged |
| Store.SavedDropsNewline | lcd.c:190-194 | Exactly one trailing newline is removed: text plus newline is saved as the text, so "a\n\n" is saved as "a\n" |
| Store.SavedTruncates | lcd.c:182 | Only the first 31 input bytes matter |
| Store.SavedNewlineAtLimit | lcd.c:182-194 | A newline as the 31st byte is removed even when more input follows it |
| Store.Refresh | lcd.c:201-203 | A refresh attempts the clear command and every transfer of the walk: between 2 and 4 writes per transfer in total |
| Store.Store | lcd.c:171-207 | With no driver data it returns -EINVAL, and on allocation failure -ENOMEM; both leave the buffer and the bus unchanged. Otherwise it returns the full count, saves the normalised text and only appends to the bus |
| Store.Show | lcd.c:161-169 | With no driver data it returns -EINVAL; otherwise it returns a reply ending in a newline, and its length |
| Store.Probe | lcd.c:212-227 | On allocation failure it returns -ENOMEM before anything reaches the bus; otherwise it returns 0, the buffer holds "InitialMsg", and the bus holds exactly the initialisation sequence, 12 to 24 bytes |
| Store.ProbeAllAck | lcd.c:218-227 | On an acknowledging bus a successful probe leaves exactly the 24 initialisation bytes on the bus, reset nibbles first |
| Store.ShowReadsBack | lcd.c:168 | A show's reply parses back into "Current buffer: ", the stored text and a newline |
| Store.ShowAfterProbe | lcd.c:223 | Before any store, a show reads "Current buffer: InitialMsg\n" |
| Store.ShowAfterStore | lcd.c:198 | A show after a successful store reads back the saved text, framed |
| Store.EchoThenShow | lcd.c:190-198 | Writing a short line with its trailing newline, then reading the attribute, gives that line back, framed |
| Store.RefreshAllAck | lcd.c:201-203 | On an acknowledging bus the controller decodes a refresh as the clear command followed by the walk over the copy's C string |
| Store.StoreAllAck | lcd.c:198-203 | On an acknowledging bus the controller decodes what a store appends as clear (0x01) followed by the walk over the saved text |
| Store.StorePrints | lcd.c:198-203 | On an acknowledging bus the characters a store writes are the saved text without its newlines |

## Left out

- `lcd.mod.c` is generated module metadata with no logic, so it is not part of this model.
- Kernel binding is not modelled: `module_i2c_driver`, `lcd_remove`, the device ID tables, `device_create_file` and `device_remove_file`, `i2c_set_clientdata`. `dev_get_drvdata` becomes the optional driver data of `Store.Device`.
- The real `i2c_smbus_write_byte` transport (`pcf8574_send`, lines 72-77) is replaced by the acknowledgement oracle.
- `udelay` and `msleep` are recorded as `Delay(us)` events for ordering only. No timing semantics are modelled.
- Memory management (`kmalloc`, `kfree`, `devm_kzalloc`) is reduced to a flag that says whether the allocation succeeds.
- `printk` and `dev_info` logging are left out. So is `sprintf` beyond building the reply bytes and returning their length.
- Concurrency is left out. The code has none, and sysfs serialisation is outside the driver.
- The sysfs `count` is taken to be the length of the input buffer.
- Transport.Exec: for an arbitrary bus it bounds only the number of writes; the exact bytes are stated per transfer (`Transport.Run`) and for an acknowledging bus (`Transport.ExecAllAck`).
- Layout.WriteStringWrap: for an arbitrary bus it states only the write count; its bytes are stated through `Layout.Render` and `Transport.ExecAllAck`.
- Store.Refresh: for an arbitrary bus it states only the write count; the acknowledging case is `Store.RefreshAllAck`.
- Init.ResetNibbles: for an arbitrary bus it states only the write count; the bytes are stated for an acknowledging bus (`Init.ResetAllAck`), and for any bus each pulse is stated by `Transport.SendNibble`.
- Init.InitSequence: for an arbitrary bus it states the bracketing waits and the write count; the exact bytes are stated for an acknowledging bus (`Init.InitAllAck`).
