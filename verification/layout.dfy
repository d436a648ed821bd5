/**
 * `lcd_write_string_wrap`: the walk over a NUL-terminated string that maps it
 * onto the 16-column display. A newline byte moves to the start of the second
 * row; any other byte is written as a character, and after every 16th
 * character in a row the walk moves to the second row by itself. The walk is
 * split here into `Render`, which computes the transfers and the final column,
 * and `Transport.Exec`, which puts them on the bus; the column counter never
 * depends on the bus, so this is the same order of writes as the source's loop.
 */
module Layout {
  import opened Bus
  import opened Transport

  const COLUMNS: int := 16
  /** Set DDRAM address 0x40: the first column of the second row. */
  const ROW_ADVANCE: bv8 := 0xC0
  const NEWLINE: bv8 := 0x0A
  const NUL: bv8 := 0x00

  /** The string a `char *` denotes: the bytes before the first NUL, or all of
      them when there is none. */
  function CString(s: seq<bv8>): (c: seq<bv8>)
    ensures |c| <= |s| && c == s[..|c|]
    ensures NUL !in c
    ensures |c| < |s| ==> s[|c|] == NUL
  {
    if |s| == 0 || s[0] == NUL then []
    else
      var rest := CString(s[1..]);
      assert s[1..][..|rest|] == s[1..|rest| + 1];
      [s[0]] + rest
  }

  /** A NUL-free text is its own C string. */
  lemma {:induction false} CStringOfText(text: seq<bv8>)
    requires NUL !in text
    ensures CString(text) == text
    decreases |text|
  {
    if |text| > 0 {
      assert NUL !in text[1..] by {
        forall i | 0 <= i < |text[1..]| ensures text[1..][i] != NUL {
          assert text[1..][i] == text[i + 1];
        }
      }
      CStringOfText(text[1..]);
    }
  }

  /** A text with no NUL and no newline: a single run of characters. */
  predicate Plain(s: seq<bv8>)
  {
    forall i :: 0 <= i < |s| ==> s[i] != NUL && s[i] != NEWLINE
  }

  /** The transfers of a walk and the column counter it ends with. */
  datatype Rendered = Rendered(ops: seq<Op>, col: int)

  /** The walk from column `col`. Every command it emits is the row advance,
      and the column counter stays within the row. */
  function Render(s: seq<bv8>, col: int): (r: Rendered)
    requires 0 <= col < COLUMNS
    ensures 0 <= r.col < COLUMNS
    ensures forall i :: 0 <= i < |r.ops| && r.ops[i].Command? ==> r.ops[i].code == ROW_ADVANCE
    decreases |s|
  {
    if |s| == 0 || s[0] == NUL then Rendered([], col)
    else if s[0] == NEWLINE then
      var rest := Render(s[1..], 0);
      Rendered([Command(ROW_ADVANCE)] + rest.ops, rest.col)
    else if col + 1 >= COLUMNS then
      var rest := Render(s[1..], 0);
      Rendered([Char(s[0]), Command(ROW_ADVANCE)] + rest.ops, rest.col)
    else
      var rest := Render(s[1..], col + 1);
      Rendered([Char(s[0])] + rest.ops, rest.col)
  }

  /** `lcd_write_string_wrap(client, s)`: the walk from column 0, on the bus.
      Every transfer is attempted whatever the bus answers. */
  function WriteStringWrap(ok: Oracle, k: nat, s: seq<bv8>): (e: Trace)
    ensures 2 * |Render(s, 0).ops| <= |Writes(e)| <= 4 * |Render(s, 0).ops|
  {
    Exec(ok, k, Render(s, 0).ops)
  }

  // Reference definitions for the properties of the walk.

  /** The character bytes among a sequence of transfers, in order. */
  function Printed(ops: seq<Op>): seq<bv8>
  {
    if |ops| == 0 then []
    else (if ops[0].Char? then [ops[0].code] else []) + Printed(ops[1..])
  }

  /** The number of commands among a sequence of transfers. */
  function Commands(ops: seq<Op>): nat
  {
    if |ops| == 0 then 0
    else (if ops[0].Command? then 1 else 0) + Commands(ops[1..])
  }

  /** `s` without its newline bytes. */
  function DropNewlines(s: seq<bv8>): seq<bv8>
  {
    if |s| == 0 then []
    else (if s[0] == NEWLINE then [] else [s[0]]) + DropNewlines(s[1..])
  }

  /** One character transfer per byte. */
  function CharOps(s: seq<bv8>): (ops: seq<Op>)
    ensures |ops| == |s|
  {
    if |s| == 0 then [] else [Char(s[0])] + CharOps(s[1..])
  }

  /** Line filling for text without newlines: `room` characters fit before the
      next row advance, then every 16 characters are followed by one. A text
      that exactly fills its last row still ends with a row advance. */
  function Fill(s: seq<bv8>, room: int): seq<Op>
    requires 1 <= room <= COLUMNS
    decreases |s|
  {
    if |s| < room then CharOps(s)
    else CharOps(s[..room]) + [Command(ROW_ADVANCE)] + Fill(s[room..], COLUMNS)
  }

  lemma {:induction false} PrintedConcat(a: seq<Op>, b: seq<Op>)
    ensures Printed(a + b) == Printed(a) + Printed(b)
    ensures Commands(a + b) == Commands(a) + Commands(b)
    decreases |a|
  {
    if |a| == 0 {
      assert a + b == b;
    } else {
      assert (a + b)[0] == a[0];
      assert (a + b)[1..] == a[1..] + b;
      PrintedConcat(a[1..], b);
    }
  }

  lemma {:induction false} CharOpsConcat(a: seq<bv8>, b: seq<bv8>)
    ensures CharOps(a + b) == CharOps(a) + CharOps(b)
    decreases |a|
  {
    if |a| == 0 {
      assert a + b == b;
    } else {
      assert (a + b)[1..] == a[1..] + b;
      CharOpsConcat(a[1..], b);
    }
  }

  lemma {:induction false} CharOpsPrinted(s: seq<bv8>)
    ensures Printed(CharOps(s)) == s && Commands(CharOps(s)) == 0
    decreases |s|
  {
    if |s| > 0 {
      CharOpsPrinted(s[1..]);
      PrintedConcat([Char(s[0])], CharOps(s[1..]));
    }
  }

  /** The walk stops at the first NUL: only the C string matters. */
  lemma {:induction false} RenderStopsAtNul(s: seq<bv8>, col: int)
    requires 0 <= col < COLUMNS
    ensures Render(s, col) == Render(CString(s), col)
    decreases |s|
  {
    if |s| > 0 && s[0] != NUL {
      var c := CString(s);
      assert c[1..] == CString(s[1..]);
      RenderStopsAtNul(s[1..], 0);
      RenderStopsAtNul(s[1..], if col + 1 >= COLUMNS then 0 else col + 1);
    }
  }

  /** Every byte before the first NUL other than a newline is written as a
      character, once, in order; nothing else is. */
  lemma {:induction false} RenderPrints(s: seq<bv8>, col: int)
    requires 0 <= col < COLUMNS
    ensures Printed(Render(s, col).ops) == DropNewlines(CString(s))
    decreases |s|
  {
    if |s| > 0 && s[0] != NUL {
      var next := if s[0] == NEWLINE || col + 1 >= COLUMNS then 0 else col + 1;
      var rest := Render(s[1..], next);
      RenderPrints(s[1..], next);
      var c := CString(s);
      assert c == [s[0]] + CString(s[1..]);
      assert DropNewlines(c) == (if s[0] == NEWLINE then [] else [s[0]]) + DropNewlines(CString(s[1..]));
      if s[0] == NEWLINE {
        PrintedConcat([Command(ROW_ADVANCE)], rest.ops);
      } else if col + 1 >= COLUMNS {
        PrintedConcat([Char(s[0]), Command(ROW_ADVANCE)], rest.ops);
      } else {
        PrintedConcat([Char(s[0])], rest.ops);
      }
    }
  }

  /** A newline emits exactly one row advance and restarts the walk at
      column 0, whatever column it was reached in. */
  lemma {:induction false} RenderNewline(a: seq<bv8>, b: seq<bv8>, col: int)
    requires 0 <= col < COLUMNS
    requires NUL !in a
    ensures var before := Render(a, col);
            var after := Render(b, 0);
            Render(a + [NEWLINE] + b, col)
              == Rendered(before.ops + [Command(ROW_ADVANCE)] + after.ops, after.col)
    decreases |a|
  {
    var s := a + [NEWLINE] + b;
    if |a| == 0 {
      assert s[1..] == b;
    } else {
      assert s[0] == a[0];
      assert s[1..] == a[1..] + [NEWLINE] + b;
      var next := if a[0] == NEWLINE || col + 1 >= COLUMNS then 0 else col + 1;
      RenderNewline(a[1..], b, next);
    }
  }

  /** Appending one character to a text that fits its row before the last
      column advances the fill by one. */
  lemma FillStep(s: seq<bv8>, room: int)
    requires 2 <= room <= COLUMNS && |s| > 0
    ensures Fill(s, room) == [Char(s[0])] + Fill(s[1..], room - 1)
  {
    if |s| < room {
    } else {
      assert s[..room] == [s[0]] + s[1..][..room - 1];
      CharOpsConcat([s[0]], s[1..][..room - 1]);
      assert s[room..] == s[1..][room - 1..];
    }
  }

  /** Dropping the first byte of a plain text leaves a plain text. */
  lemma PlainTail(s: seq<bv8>)
    requires Plain(s) && |s| > 0
    ensures Plain(s[1..])
  {
    forall i | 0 <= i < |s[1..]| ensures s[1..][i] != NUL && s[1..][i] != NEWLINE {
      assert s[1..][i] == s[i + 1];
    }
  }

  /** Without newlines, the walk from column `col` is the line filling with
      `16 - col` characters of room. */
  lemma {:induction false} RenderFills(s: seq<bv8>, col: int)
    requires 0 <= col < COLUMNS
    requires Plain(s)
    ensures Render(s, col).ops == Fill(s, COLUMNS - col)
    decreases |s|
  {
    if |s| > 0 {
      PlainTail(s);
      if col + 1 >= COLUMNS {
        RenderFills(s[1..], 0);
        assert s[..1] == [s[0]];
        assert Fill(s, 1) == CharOps(s[..1]) + [Command(ROW_ADVANCE)] + Fill(s[1..], COLUMNS);
      } else {
        RenderFills(s[1..], col + 1);
        FillStep(s, COLUMNS - col);
      }
    }
  }

  /** Without newlines, the walk from column `col` ends in column
      (col + |s|) mod 16. */
  lemma {:induction false} RenderColumn(s: seq<bv8>, col: int)
    requires 0 <= col < COLUMNS
    requires Plain(s)
    ensures Render(s, col).col == (col + |s|) % COLUMNS
    decreases |s|
  {
    var n := |s|;
    if n > 0 {
      PlainTail(s);
      var next := if col + 1 >= COLUMNS then 0 else col + 1;
      RenderColumn(s[1..], next);
      assert Render(s, col).col == (next + (n - 1)) % COLUMNS;
      assert next + (n - 1) == col + n || next + (n - 1) + COLUMNS == col + n;
    }
  }

  /** The line filling of `s` with `room` characters of room holds one row
      advance per completed row. */
  lemma {:induction false} FillCommands(s: seq<bv8>, room: int)
    requires 1 <= room <= COLUMNS
    ensures Commands(Fill(s, room)) == (|s| + COLUMNS - room) / COLUMNS
    decreases |s|
  {
    var n := |s|;
    if n < room {
      CharOpsPrinted(s);
      assert 0 <= n + COLUMNS - room < COLUMNS;
    } else {
      var m := n - room;
      assert |s[room..]| == m;
      FillCommands(s[room..], COLUMNS);
      assert Commands(Fill(s[room..], COLUMNS)) == m / COLUMNS by {
        assert m + COLUMNS - COLUMNS == m;
      }
      CharOpsPrinted(s[..room]);
      PrintedConcat(CharOps(s[..room]), [Command(ROW_ADVANCE)]);
      PrintedConcat(CharOps(s[..room]) + [Command(ROW_ADVANCE)], Fill(s[room..], COLUMNS));
      assert n + COLUMNS - room == m + COLUMNS;
      assert (m + COLUMNS) / COLUMNS == m / COLUMNS + 1;
    }
  }

  /** Text without newlines starting in column 0 gets exactly |s| / 16
      automatic row advances (rounded down), one right after each 16th, 32nd,
      ... character, a final one included when |s| is a multiple of 16. */
  lemma AutoWrap(s: seq<bv8>)
    requires Plain(s)
    ensures Render(s, 0).ops == Fill(s, COLUMNS)
    ensures Commands(Render(s, 0).ops) == |s| / COLUMNS
  {
    var n := |s|;
    RenderFills(s, 0);
    FillCommands(s, COLUMNS);
    assert Commands(Fill(s, COLUMNS)) == (n + COLUMNS - COLUMNS) / COLUMNS;
    assert n + COLUMNS - COLUMNS == n;
  }

  /** Text without newlines starting in column 0 ends in column |s| mod 16. */
  lemma AutoWrapColumn(s: seq<bv8>)
    requires Plain(s)
    ensures Render(s, 0).col == |s| % COLUMNS
  {
    var n := |s|;
    RenderColumn(s, 0);
    assert Render(s, 0).col == (0 + n) % COLUMNS;
    assert 0 + n == n;
  }

  lemma WithinRow(n: int)
    requires 0 <= n < COLUMNS
    ensures n % COLUMNS == n
  {
  }

  /** A text without newlines shorter than a row is written as it is, with
      no row advance, ending in the column after its last character. */
  lemma ShortLine(s: seq<bv8>)
    requires Plain(s) && |s| < COLUMNS
    ensures Render(s, 0) == Rendered(CharOps(s), |s|)
  {
    var r := Render(s, 0);
    RenderFills(s, 0);
    assert r.ops == CharOps(s);
    AutoWrapColumn(s);
    WithinRow(|s|);
    assert r == Rendered(r.ops, r.col);
  }

  /** Two short lines separated by a newline, as in "Hi\nThere": the first
      line's characters, one row advance, the second line's characters, and
      the walk ends in the column after the last one. */
  lemma TwoShortLines(a: seq<bv8>, b: seq<bv8>)
    requires Plain(a) && Plain(b)
    requires |a| < COLUMNS && |b| < COLUMNS
    ensures Render(a + [NEWLINE] + b, 0)
         == Rendered(CharOps(a) + [Command(ROW_ADVANCE)] + CharOps(b), |b|)
  {
    assert NUL !in a by {
      forall i | 0 <= i < |a| ensures a[i] != NUL { }
    }
    ShortLine(a);
    ShortLine(b);
    RenderNewline(a, b, 0);
  }

  /** A text without newlines that exactly fills the first row ends with an
      automatic row advance after its 16 characters, back in column 0. */
  lemma FullRow(s: seq<bv8>)
    requires Plain(s) && |s| == COLUMNS
    ensures Render(s, 0) == Rendered(CharOps(s) + [Command(ROW_ADVANCE)], 0)
  {
    RenderFills(s, 0);
    assert s[..COLUMNS] == s && s[COLUMNS..] == [];
    assert Fill(s[COLUMNS..], COLUMNS) == [];
    AutoWrapColumn(s);
  }

  /** A 17th character goes to the second row: the row advance comes between
      the 16th and the 17th character, and the walk ends in column 1. */
  lemma RowOverflow(s: seq<bv8>)
    requires Plain(s) && |s| == COLUMNS + 1
    ensures Render(s, 0)
         == Rendered(CharOps(s[..COLUMNS]) + [Command(ROW_ADVANCE), Char(s[COLUMNS])], 1)
  {
    RenderFills(s, 0);
    var tail := s[COLUMNS..];
    assert tail == [s[COLUMNS]];
    assert Fill(tail, COLUMNS) == [Char(s[COLUMNS])];
    AutoWrapColumn(s);
  }
}
