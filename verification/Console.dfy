/** The line buffer of the bridge's LCD console: 39 rows of 28 columns, against the
    unbounded history of everything that was printed. */
module Console {
  import opened Words

  const COLS := 28
  const LOG_LINES := 39

  const NEWLINE: byte := 10
  const RETURN: byte := 13
  const BACKSPACE: byte := 8
  const TAB: byte := 9
  const BLANK: byte := 32

  type Line = seq<byte>

  // ---- The history ----

  /** One printable character, if it still fits and is one. */
  function Typed(line: Line, ch: byte): Line {
    if ch >= 32 && |line| < COLS then line + [ch] else line
  }

  /** What a character other than a newline does to the line being written. */
  function Edited(line: Line, ch: byte): Line {
    if ch == RETURN then line
    else if ch == BACKSPACE then (if line == [] then [] else line[..|line| - 1])
    else if ch == TAB then Typed(Typed(Typed(Typed(line, BLANK), BLANK), BLANK), BLANK)
    else Typed(line, ch)
  }

  /** A line folded out of the characters between two newlines. */
  function Fold(text: seq<byte>): Line {
    if text == [] then [] else Edited(Fold(text[..|text| - 1]), text[|text| - 1])
  }

  /** The stretches of the stream that newlines end. */
  function Ended(stream: seq<byte>): seq<seq<byte>> {
    if stream == [] then []
    else
      var before := stream[..|stream| - 1];
      if stream[|stream| - 1] == NEWLINE then Ended(before) + [Open(before)] else Ended(before)
  }

  /** The stretch after the last newline. */
  function Open(stream: seq<byte>): seq<byte> {
    if stream == [] || stream[|stream| - 1] == NEWLINE then []
    else Open(stream[..|stream| - 1]) + [stream[|stream| - 1]]
  }

  function FoldAll(texts: seq<seq<byte>>): seq<Line> {
    if texts == [] then [] else FoldAll(texts[..|texts| - 1]) + [Fold(texts[|texts| - 1])]
  }

  /** Every line committed so far. */
  function Committed(stream: seq<byte>): seq<Line> { FoldAll(Ended(stream)) }

  /** The newest lines, or all of them followed by empty rows. */
  function Rows(lines: seq<Line>): (rows: seq<Line>)
    ensures |rows| == LOG_LINES
  {
    if |lines| <= LOG_LINES then lines + seq(LOG_LINES - |lines|, _ => [])
    else lines[|lines| - LOG_LINES..]
  }

  lemma CommitExtends(stream: seq<byte>)
    ensures Committed(stream + [NEWLINE]) == Committed(stream) + [Fold(Open(stream))]
    ensures Fold(Open(stream + [NEWLINE])) == []
  {
    assert (stream + [NEWLINE])[..|stream|] == stream;
    var all := Ended(stream) + [Open(stream)];
    assert all[..|all| - 1] == Ended(stream);
  }

  lemma EditExtends(stream: seq<byte>, ch: byte)
    requires ch != NEWLINE
    ensures Committed(stream + [ch]) == Committed(stream)
    ensures Fold(Open(stream + [ch])) == Edited(Fold(Open(stream)), ch)
  {
    assert (stream + [ch])[..|stream|] == stream;
    var open := Open(stream) + [ch];
    assert open[..|open| - 1] == Open(stream);
  }

  lemma {:induction false} FoldFits(text: seq<byte>)
    ensures |Fold(text)| <= COLS && forall i :: 0 <= i < |Fold(text)| ==> Fold(text)[i] >= 32
  {
    if text != [] { FoldFits(text[..|text| - 1]); }
  }

  /** One more line: it takes the next empty row, or the rows scroll up by one. */
  lemma RowsScroll(lines: seq<Line>, line: Line)
    ensures |lines| < LOG_LINES ==> Rows(lines + [line]) == Rows(lines)[|lines| := line]
    ensures |lines| >= LOG_LINES ==> Rows(lines + [line]) == Rows(lines)[1..] + [line]
  {
  }

  // ---- What the history looks like ----

  /** More characters on a line that has some already. */
  function Continued(line: Line, text: seq<byte>): Line {
    if text == [] then line else Edited(Continued(line, text[..|text| - 1]), text[|text| - 1])
  }

  lemma {:induction false} FoldConcat(a: seq<byte>, b: seq<byte>)
    ensures Fold(a + b) == Continued(Fold(a), b)
    decreases |b|
  {
    hide Edited;
    if b == [] {
      assert a + b == a;
    } else {
      var all := a + b;
      assert all[..|all| - 1] == a + b[..|b| - 1];
      FoldConcat(a, b[..|b| - 1]);
    }
  }

  /** What has the same effect on the line so far has the same effect with any text behind it. */
  lemma SameFold(a: seq<byte>, x: seq<byte>, y: seq<byte>, b: seq<byte>)
    requires Continued(Fold(a), x) == Continued(Fold(a), y)
    ensures Fold(a + x + b) == Fold(a + y + b)
  {
    hide Continued, Fold;
    FoldConcat(a, x);
    FoldConcat(a, y);
    FoldConcat(a + x, b);
    FoldConcat(a + y, b);
  }

  lemma ContinuedOne(line: Line, ch: byte)
    ensures Continued(line, [ch]) == Edited(line, ch) && Continued(line, []) == line
  {
    hide Edited;
    assert [ch][..0] == [];
  }

  lemma ContinuedMore(line: Line, text: seq<byte>, ch: byte)
    ensures Continued(line, text + [ch]) == Edited(Continued(line, text), ch)
  {
    hide Edited;
    assert (text + [ch])[..|text|] == text;
  }

  /** A line shows the first 28 of its characters. */
  lemma {:induction false} PlainShows(text: seq<byte>)
    requires forall i :: 0 <= i < |text| ==> text[i] >= 32
    ensures Fold(text) == if |text| <= 28 then text else text[..28]
    decreases |text|
  {
    if text != [] {
      var front := text[..|text| - 1];
      PlainShows(front);
      assert text == front + [text[|text| - 1]];
    }
  }

  /** A carriage return leaves no trace, nor does any other control character but a backspace, a
      tab and the newline that ends the line. */
  lemma ControlIgnored(a: seq<byte>, ch: byte, b: seq<byte>)
    requires ch < 32 && ch != 8 && ch != 9 && ch != 10
    ensures Fold(a + [ch] + b) == Fold(a + b)
  {
    ContinuedOne(Fold(a), ch);
    SameFold(a, [ch], [], b);
    assert a + [] + b == a + b;
  }

  /** A tab is four blanks. */
  lemma TabIsFourBlanks(a: seq<byte>, b: seq<byte>)
    ensures Fold(a + [9] + b) == Fold(a + [32, 32, 32, 32] + b)
  {
    var line := Fold(a);
    ContinuedOne(line, 9);
    ContinuedOne(line, 32);
    ContinuedMore(line, [32], 32);
    ContinuedMore(line, [32] + [32], 32);
    ContinuedMore(line, [32] + [32] + [32], 32);
    assert [32] + [32] + [32] + [32] == [32, 32, 32, 32];
    SameFold(a, [9], [32, 32, 32, 32], b);
  }

  /** A backspace takes back the character before it, if that one fitted. */
  lemma BackspaceUndoes(a: seq<byte>, ch: byte, b: seq<byte>)
    requires ch >= 32 && |Fold(a)| < 28
    ensures Fold(a + [ch, 8] + b) == Fold(a + b)
  {
    hide Fold, Continued;
    var line := Fold(a);
    ContinuedOne(line, ch);
    ContinuedMore(line, [ch], 8);
    assert [ch] + [8] == [ch, 8];
    assert (line + [ch])[..|line|] == line;
    SameFold(a, [ch, 8], [], b);
    assert a + [] + b == a + b;
  }

  /** On any line it takes off the last character, and on an empty one it does nothing. */
  lemma BackspaceTakesLast(a: seq<byte>, b: seq<byte>)
    ensures Fold(a) != [] ==> Fold(a) == Fold(a + [8]) + [Fold(a)[|Fold(a)| - 1]]
    ensures Fold(a) == [] ==> Fold(a + [8] + b) == Fold(a + b)
  {
    hide Fold, Continued;
    FoldConcat(a, [8]);
    ContinuedOne(Fold(a), 8);
    if Fold(a) == [] {
      SameFold(a, [8], [], b);
      assert a + [] + b == a + b;
    }
  }

  /** Texts, each ended by a newline. */
  function Lines(texts: seq<seq<byte>>): seq<byte> {
    if texts == [] then [] else Lines(texts[..|texts| - 1]) + (texts[|texts| - 1] + [10])
  }

  function EachFolded(texts: seq<seq<byte>>): seq<Line> {
    seq(|texts|, i requires 0 <= i < |texts| => Fold(texts[i]))
  }

  lemma {:induction false} OpenText(stream: seq<byte>, text: seq<byte>)
    requires 10 !in text && (stream == [] || stream[|stream| - 1] == 10)
    ensures Ended(stream + text) == Ended(stream) && Open(stream + text) == text
    decreases |text|
  {
    if text == [] {
      assert stream + text == stream;
    } else {
      var all, front := stream + text, text[..|text| - 1];
      assert all[..|all| - 1] == stream + front;
      assert text == front + [text[|text| - 1]];
      OpenText(stream, front);
    }
  }

  /** The lines committed are those between the newlines, in order, and the line being written is
      what came after the last of them. */
  lemma {:induction false} CommittedLines(texts: seq<seq<byte>>, open: seq<byte>)
    requires 10 !in open && forall i :: 0 <= i < |texts| ==> 10 !in texts[i]
    ensures Committed(Lines(texts) + open) == EachFolded(texts)
    ensures Fold(Open(Lines(texts) + open)) == Fold(open)
    decreases |texts|
  {
    hide Fold, Open, Ended, FoldAll, Committed;
    if texts == [] {
      OpenText([], open);
      assert Lines(texts) + open == [] + open;
      NoLines();
    } else {
      var front, last := texts[..|texts| - 1], texts[|texts| - 1];
      CommittedLines(front, last);
      var before := Lines(front) + last;
      assert Lines(texts) == before + [10];
      CommitExtends(before);
      OpenText(Lines(texts), open);
      SameEnded(Lines(texts) + open, Lines(texts));
      FoldsExtend(texts);
    }
  }

  lemma FoldsExtend(texts: seq<seq<byte>>)
    requires texts != []
    ensures EachFolded(texts) == EachFolded(texts[..|texts| - 1]) + [Fold(texts[|texts| - 1])]
  {
    hide Fold;
  }

  lemma NoLines()
    ensures Ended([]) == [] && Committed([]) == [] && forall open :: Ended(open) == [] ==> Committed(open) == []
  {
  }

  lemma SameEnded(a: seq<byte>, b: seq<byte>)
    requires Ended(a) == Ended(b)
    ensures Committed(a) == Committed(b)
  {
  }

  /** The rows are the last 39 lines in order, or all of them with empty rows below. */
  lemma RowsShow(lines: seq<Line>, r: nat)
    requires r < 39
    ensures |Rows(lines)| == 39
    ensures var first := if |lines| <= 39 then 0 else |lines| - 39;
            Rows(lines)[r] == if first + r < |lines| then lines[first + r] else []
  {
  }

  datatype Op = Print(ch: byte) | Show(row: int)

  function Printed(ops: seq<Op>): seq<byte> {
    if ops == [] then []
    else
      var before := Printed(ops[..|ops| - 1]);
      match ops[|ops| - 1]
      case Print(ch) => before + [ch]
      case Show(_) => before
  }

  /** What a run prints: its characters in order, the paints between them adding nothing. */
  lemma {:induction false} PrintedIs(a: seq<Op>, b: seq<Op>, ch: byte, row: int)
    ensures Printed([Print(ch)]) == [ch] && Printed([Show(row)]) == []
    ensures Printed(a + b) == Printed(a) + Printed(b)
    decreases |b|
  {
    assert [Print(ch)][..0] == [] && [Show(row)][..0] == [];
    if b == [] {
      assert a + b == a;
    } else {
      var all, front := a + b, b[..|b| - 1];
      assert all[..|all| - 1] == a + front;
      PrintedIs(a, front, ch, row);
    }
  }

  // ---- The code ----

  class Screen {
    var lines: seq<Line>
    var dirty: seq<bool>
    var nextRow: nat
    var full: bool
    var cur: seq<byte>
    var curPos: nat
    /** Everything printed so far, and what the panel shows. */
    ghost var stream: seq<byte>
    ghost var panel: seq<Line>

    ghost predicate Valid()
      reads this
    {
      && lines == Rows(Committed(stream))
      && nextRow == (if |Committed(stream)| < LOG_LINES then |Committed(stream)| else LOG_LINES)
      && full == (|Committed(stream)| > LOG_LINES)
      && |dirty| == LOG_LINES && |panel| == LOG_LINES
      && (forall r :: 0 <= r < LOG_LINES && !dirty[r] ==> panel[r] == lines[r])
      && CursorOk(Fold(Open(stream)))
    }

    /** The current line is `text`, NUL terminated. */
    ghost predicate CursorOk(text: Line)
      reads this
    {
      && |cur| == COLS + 1 && curPos == |text| <= COLS
      && cur[..curPos] == text && cur[curPos] == 0
      && forall i :: 0 <= i < curPos ==> text[i] >= 32
    }

    constructor ()
      ensures Valid() && stream == []
    {
      lines := seq(LOG_LINES, _ => []);
      dirty := seq(LOG_LINES, _ => true);
      nextRow, full := 0, false;
      cur, curPos := seq(COLS + 1, _ => 0), 0;
      stream := [];
      panel := seq(LOG_LINES, _ => []);
    }

    /** `bridge_console_line` */
    method LineAt(row: int) returns (text: Line)
      requires Valid()
      ensures text == if 0 <= row < LOG_LINES then Rows(Committed(stream))[row] else []
    {
      text := if row < 0 || row >= LOG_LINES then [] else lines[row];
    }

    /** The panel paints a row and says so (`bridge_console_row_rendered`). */
    method Paint(row: int)
      requires Valid()
      modifies this`dirty, this`panel
      ensures Valid()
      ensures 0 <= row < LOG_LINES ==> panel[row] == lines[row]
      ensures forall r :: 0 <= r < LOG_LINES && r != row ==> panel[r] == old(panel)[r] && dirty[r] == old(dirty)[r]
    {
      hide Rows, Committed, Fold, Open;
      if row >= 0 && row < LOG_LINES {
        panel := panel[row := lines[row]];
        dirty := dirty[row := false];
      }
    }

    /** `bridge_console_dirty_count` */
    method DirtyCount() returns (n: nat)
      requires Valid()
      ensures n == |set r | 0 <= r < LOG_LINES && dirty[r]|
      ensures n == 0 ==> panel == Rows(Committed(stream))
    {
      hide Rows, Committed, Fold, Open;
      n := 0;
      ghost var counted: set<int> := {};
      for i := 0 to LOG_LINES
        invariant counted == set r | 0 <= r < i && dirty[r]
        invariant n == |counted|
      {
        if dirty[i] {
          n := n + 1;
          counted := counted + {i};
        }
      }
      if n == 0 {
        assert counted == {};
        assert forall r :: 0 <= r < LOG_LINES && dirty[r] ==> r in counted;
        assert panel == lines;
      }
    }

    /** `bridge_console_is_full` */
    method IsFull() returns (b: bool)
      requires Valid()
      ensures b <==> |Committed(stream)| >= LOG_LINES
    {
      b := nextRow >= LOG_LINES;
    }

    /** `bridge_console_commit` */
    method Commit()
      requires Valid()
      modifies this
      ensures Valid() && stream == old(stream) + [NEWLINE] && panel == old(panel)
    {
      hide Rows, Committed, Fold, Open;
      CommitExtends(stream);
      RowsScroll(Committed(stream), Fold(Open(stream)));
      var n := 0;
      while n < COLS && cur[n] != 0
        invariant 0 <= n <= curPos
      {
        n := n + 1;
      }
      var line := cur[..n];
      if nextRow < LOG_LINES {
        lines := lines[nextRow := line];
        dirty := dirty[nextRow := true];
        nextRow := nextRow + 1;
      } else {
        lines := lines[1..] + [line];
        dirty := seq(LOG_LINES, _ => true);
        full := true;
      }
      cur := cur[0 := 0];
      curPos := 0;
      stream := stream + [NEWLINE];
    }

    /** The default branch of `bridge_console_putc`. */
    method Type(ch: byte, ghost text: Line)
      requires CursorOk(text)
      modifies this`cur, this`curPos
      ensures CursorOk(Typed(text, ch))
    {
      if ch >= 0x20 && curPos < COLS {
        cur := cur[curPos := ch];
        curPos := curPos + 1;
        cur := cur[curPos := 0];
      }
    }

    /** `bridge_console_putc`: whatever the character, the rows are the last 39 committed
        lines of the history, and clean rows are on the panel. */
    method Putc(ch: byte)
      requires Valid()
      modifies this
      ensures Valid() && stream == old(stream) + [ch] && panel == old(panel)
    {
      hide Rows, Committed, Fold, Open;
      if ch == NEWLINE {
        Commit();
        return;
      }
      EditExtends(stream, ch);
      ghost var text := Fold(Open(stream));
      if ch == RETURN {
      } else if ch == BACKSPACE {
        if curPos > 0 {
          curPos := curPos - 1;
          cur := cur[curPos := 0];
        }
      } else if ch == TAB {
        Type(BLANK, text);
        Type(BLANK, Typed(text, BLANK));
        Type(BLANK, Typed(Typed(text, BLANK), BLANK));
        Type(BLANK, Typed(Typed(Typed(text, BLANK), BLANK), BLANK));
      } else {
        Type(ch, text);
      }
      stream := stream + [ch];
    }

    /** Any run of characters and paints. */
    method Run(ops: seq<Op>)
      requires Valid()
      modifies this
      ensures Valid() && stream == old(stream) + Printed(ops)
      ensures lines == Rows(Committed(old(stream) + Printed(ops)))
    {
      hide Rows, Committed, Fold, Open;
      assert Printed(ops[..0]) == [];
      for i := 0 to |ops|
        invariant Valid() && stream == old(stream) + Printed(ops[..i])
      {
        assert ops[..i + 1][..i] == ops[..i];
        match ops[i]
        case Print(ch) => Putc(ch);
        case Show(row) => Paint(row);
      }
      assert ops[..|ops|] == ops;
    }
  }
}
