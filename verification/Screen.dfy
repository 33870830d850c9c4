/** One text screen of 80 x 25 cells: the scrolling state machine behind
    `terminal_putc` and `clear`, the wrapped text it is meant to show, and where the
    two part company. */
module Screen {

  type Byte = b: int | 0 <= b < 256

  /** A character byte followed by its attribute byte; a 4 KB video page holds 2048. */
  datatype Cell = Cell(ch: Byte, attr: Byte)

  const COLS := 80
  const ROWS := 25
  const CELLS := 2000
  const PAGE := 2048

  const ATTRIB: Byte := 7
  const NEWLINE: Byte := 10
  const RETURN: Byte := 13
  const BACKSPACE: Byte := 8
  const SPACE: Byte := 32

  const BLANK := Cell(SPACE, ATTRIB)
  const NUL := Cell(0, ATTRIB)

  /** `flag` is the source's shift_up_one_flag. */
  datatype Screen = Screen(page: seq<Cell>, x: int, y: int, flag: int)

  datatype Op = Put(c: Byte) | Clear

  predicate IsBreak(c: Byte) { c == NEWLINE || c == RETURN }

  predicate Printable(c: Byte) { !IsBreak(c) && c != BACKSPACE }

  predicate AtLastCell(s: Screen) { s.x == COLS - 1 && s.y == ROWS - 1 }

  /** What every call of `terminal_putc` and `clear` keeps. */
  ghost predicate Safe(s: Screen) {
    && |s.page| == PAGE
    && 0 <= s.x < COLS && 0 <= s.y < ROWS
    && (s.flag == 0 || s.flag == 2)
    && (AtLastCell(s) ==> s.flag == 2)
  }

  // ----- the machine

  function ScrollUp(page: seq<Cell>): (r: seq<Cell>)
    requires |page| == PAGE
    ensures |r| == PAGE && r[CELLS..] == page[CELLS..]
    ensures forall k :: 0 <= k < CELLS - COLS ==> r[k] == page[k + COLS]
    ensures forall k :: CELLS - COLS <= k < CELLS ==> r[k] == BLANK
  {
    page[COLS..CELLS] + seq(COLS, _ => BLANK) + page[CELLS..]
  }

  function Poke(page: seq<Cell>, x: int, y: int, cell: Cell): (r: seq<Cell>)
    requires |page| == PAGE && 0 <= x < COLS && 0 <= y < ROWS
    ensures |r| == PAGE && r[CELLS..] == page[CELLS..]
  {
    page[COLS * y + x := cell]
  }

  function PutBreak(s: Screen): Screen
    requires Safe(s)
  {
    if s.y == ROWS - 1 then Screen(ScrollUp(s.page), 0, ROWS - 1, 0)
    else Screen(s.page, 0, s.y + 1, 0)
  }

  function PutBackspace(s: Screen): Screen
    requires Safe(s)
  {
    var x := if s.x > 0 then s.x - 1 else if s.y != 0 then COLS - 1 else 0;
    var y := if s.x > 0 || s.y == 0 then s.y else s.y - 1;
    Screen(Poke(s.page, x, y, BLANK), x, y, s.flag)
  }

  function PutPrintable(s: Screen, c: Byte): Screen
    requires Safe(s)
  {
    var page := Poke(s.page, s.x, s.y, Cell(c, ATTRIB));
    if s.flag == 2 then Screen(ScrollUp(page), 0, ROWS - 1, 0)
    else if s.x == COLS - 1 then Screen(page, 0, s.y + 1, 0)
    else Screen(page, s.x + 1, s.y, if s.x + 1 == COLS - 1 && s.y == ROWS - 1 then 2 else 0)
  }

  function Putc(s: Screen, c: Byte): Screen
    requires Safe(s)
  {
    if IsBreak(c) then PutBreak(s)
    else if c == BACKSPACE then PutBackspace(s)
    else PutPrintable(s, c)
  }

  function Cleared(s: Screen): Screen
    requires Safe(s)
  {
    Screen(seq(CELLS, _ => NUL) + s.page[CELLS..], 0, 0, s.flag)
  }

  function Apply(s: Screen, op: Op): (r: Screen)
    requires Safe(s)
    ensures Safe(r) && r.page[CELLS..] == s.page[CELLS..]
  {
    match op
    case Put(c) => Putc(s, c)
    case Clear => Cleared(s)
  }

  /** Cursor safety over every stream: cursor and flag stay in range, a screen that
      rests on the last cell carries flag 2, the wrap to row 0 is never left visible,
      and no cell past the 25 rows is written. */
  function Feed(s: Screen, ops: seq<Op>): (r: Screen)
    requires Safe(s)
    ensures Safe(r) && r.page[CELLS..] == s.page[CELLS..]
  {
    if ops == [] then s else Apply(Feed(s, ops[..|ops| - 1]), ops[|ops| - 1])
  }

  lemma FeedSnoc(s: Screen, ops: seq<Op>, op: Op)
    requires Safe(s)
    ensures Feed(s, ops + [op]) == Apply(Feed(s, ops), op)
  {
    assert (ops + [op])[..|ops|] == ops;
  }

  function Puts(text: seq<Byte>): (ops: seq<Op>)
    ensures |ops| == |text|
  {
    seq(|text|, i requires 0 <= i < |text| => Put(text[i]))
  }

  lemma PutsSnoc(s: Screen, text: seq<Byte>, c: Byte)
    requires Safe(s)
    ensures Feed(s, Puts(text + [c])) == Apply(Feed(s, Puts(text)), Put(c))
  {
    assert Puts(text + [c]) == Puts(text) + [Put(c)];
    FeedSnoc(s, Puts(text), Put(c));
  }

  // ----- the wrapped text

  type Row = seq<Byte>

  /** A line cut into rows of 80; a full row opens a new one. */
  function Chunks(line: seq<Byte>): (r: seq<Row>)
    ensures 0 < |r|
  {
    if |line| < COLS then [line] else [line[..COLS]] + Chunks(line[COLS..])
  }

  function FirstBreak(text: seq<Byte>): (k: nat)
    ensures k <= |text|
    ensures forall i :: 0 <= i < k ==> !IsBreak(text[i])
    ensures k < |text| ==> IsBreak(text[k])
  {
    if text == [] || IsBreak(text[0]) then 0 else 1 + FirstBreak(text[1..])
  }

  /** Every row the text would occupy on an endless sheet 80 columns wide. */
  function Wrap(text: seq<Byte>): (r: seq<Row>)
    ensures 0 < |r|
  {
    var k := FirstBreak(text);
    if k == |text| then Chunks(text) else Chunks(text[..k]) + Wrap(text[k + 1..])
  }

  predicate IsSheet(rows: seq<Row>) {
    && 0 < |rows|
    && |rows[|rows| - 1]| < COLS
    && forall i :: 0 <= i < |rows| ==> |rows[i]| <= COLS
  }

  function Extend(rows: seq<Row>, c: Byte): (r: seq<Row>)
    requires IsSheet(rows)
    ensures IsSheet(r)
  {
    var n := |rows|;
    if IsBreak(c) then rows + [[]]
    else
      var row := rows[n - 1] + [c];
      if |row| == COLS then rows[..n - 1] + [row, []] else rows[..n - 1] + [row]
  }

  lemma {:induction false} ChunksSnoc(line: seq<Byte>, c: Byte)
    requires !IsBreak(c)
    ensures IsSheet(Chunks(line))
    ensures Chunks(line + [c]) == Extend(Chunks(line), c)
  {
    if |line| < COLS {
      if |line| == COLS - 1 {
        assert (line + [c])[..COLS] == line + [c];
        assert (line + [c])[COLS..] == [];
      }
    } else {
      ChunksSnoc(line[COLS..], c);
      assert (line + [c])[..COLS] == line[..COLS];
      assert (line + [c])[COLS..] == line[COLS..] + [c];
      ExtendBehind([line[..COLS]], Chunks(line[COLS..]), c);
    }
  }

  lemma ExtendBehind(front: seq<Row>, rows: seq<Row>, c: Byte)
    requires IsSheet(rows) && forall i :: 0 <= i < |front| ==> |front[i]| <= COLS
    ensures IsSheet(front + rows)
    ensures Extend(front + rows, c) == front + Extend(rows, c)
  {
    assert (front + rows)[..|front + rows| - 1] == front + rows[..|rows| - 1];
  }

  lemma FirstBreakSnoc(text: seq<Byte>, c: Byte)
    ensures FirstBreak(text + [c]) ==
            if FirstBreak(text) < |text| || IsBreak(c) then FirstBreak(text) else |text| + 1
  {
    var k, k' := FirstBreak(text), FirstBreak(text + [c]);
    assert (text + [c])[|text|] == c;
    assert k < |text| ==> (text + [c])[k] == text[k];
    assert k' < |text| ==> (text + [c])[k'] == text[k'];
  }

  lemma {:induction false} WrapSnoc(text: seq<Byte>, c: Byte)
    ensures IsSheet(Wrap(text))
    ensures Wrap(text + [c]) == Extend(Wrap(text), c)
    decreases |text|
  {
    var k := FirstBreak(text);
    FirstBreakSnoc(text, c);
    if k == |text| {
      WrapSnocLast(text, c);
    } else {
      var rest := text[k + 1..];
      WrapSnoc(rest, c);
      assert (text + [c])[..k] == text[..k];
      assert (text + [c])[k + 1..] == rest + [c];
      ChunksSnoc(text[..k], SPACE);
      ExtendBehind(Chunks(text[..k]), Wrap(rest), c);
    }
  }

  lemma WrapSnocLast(line: seq<Byte>, c: Byte)
    requires FirstBreak(line) == |line|
    ensures IsSheet(Wrap(line))
    ensures Wrap(line + [c]) == Extend(Wrap(line), c)
  {
    FirstBreakSnoc(line, c);
    var longer := line + [c];
    assert Wrap(line) == Chunks(line);
    if IsBreak(c) {
      ChunksSnoc(line, SPACE);
      assert longer[..|line|] == line && longer[|line| + 1..] == [];
      assert Wrap(longer) == Chunks(longer[..|line|]) + Wrap(longer[|line| + 1..]);
    } else {
      ChunksSnoc(line, c);
      assert Wrap(longer) == Chunks(longer);
    }
  }

  // ----- the screen shows the last 25 rows

  /** Rows opened by scrolling are filled with spaces, the first 25 with NUL. */
  function CellOf(rows: seq<Row>, i: nat, col: nat): Cell {
    if i < |rows| && col < |rows[i]| then Cell(rows[i][col], ATTRIB)
    else if i < ROWS then NUL
    else BLANK
  }

  function TopRow(rows: seq<Row>): nat {
    if |rows| <= ROWS then 0 else |rows| - ROWS
  }

  function Render(rows: seq<Row>, tail: seq<Cell>): (s: Screen)
    requires IsSheet(rows) && |tail| == PAGE - CELLS
    ensures Safe(s)
    ensures forall k :: 0 <= k < CELLS ==>
      s.page[k] == CellOf(rows, TopRow(rows) + k / COLS, k % COLS)
    ensures s.page[CELLS..] == tail
  {
    var x, y := |rows[|rows| - 1]|, |rows| - 1 - TopRow(rows);
    Screen(seq(CELLS, k requires 0 <= k < CELLS => CellOf(rows, TopRow(rows) + k / COLS, k % COLS)) + tail,
           x, y, if x == COLS - 1 && y == ROWS - 1 then 2 else 0)
  }

  lemma SamePage(a: seq<Cell>, b: seq<Cell>)
    requires |a| == |b| == PAGE && a[CELLS..] == b[CELLS..]
    requires forall k :: 0 <= k < CELLS ==> a[k] == b[k]
    ensures a == b
  {
    assert a == a[..CELLS] + a[CELLS..];
    assert b == b[..CELLS] + b[CELLS..];
  }

  lemma RenderBreak(rows: seq<Row>, tail: seq<Cell>)
    requires IsSheet(rows) && |tail| == PAGE - CELLS
    ensures PutBreak(Render(rows, tail)) == Render(rows + [[]], tail)
  {
    var s, s' := PutBreak(Render(rows, tail)), Render(rows + [[]], tail);
    forall k | 0 <= k < CELLS
      ensures s.page[k] == s'.page[k]
    {
      if |rows| >= ROWS && k < CELLS - COLS {
        assert (k + COLS) / COLS == k / COLS + 1 && (k + COLS) % COLS == k % COLS;
      }
    }
    SamePage(s.page, s'.page);
  }

  /** Writing at the cursor extends the last row. */
  lemma PokeRow(rows: seq<Row>, tail: seq<Cell>, c: Byte)
    requires IsSheet(rows) && |tail| == PAGE - CELLS
    ensures var s := Render(rows, tail);
      var row := rows[|rows| - 1] + [c];
      var page := Poke(s.page, s.x, s.y, Cell(c, ATTRIB));
      forall k :: 0 <= k < CELLS ==>
        page[k] == CellOf(rows[|rows| - 1 := row], TopRow(rows) + k / COLS, k % COLS)
  {
    var s := Render(rows, tail);
    var n := |rows|;
    forall k | 0 <= k < CELLS
      ensures Poke(s.page, s.x, s.y, Cell(c, ATTRIB))[k] ==
              CellOf(rows[n - 1 := rows[n - 1] + [c]], TopRow(rows) + k / COLS, k % COLS)
    {
      assert k == COLS * (k / COLS) + k % COLS;
    }
  }

  lemma RenderInRow(rows: seq<Row>, tail: seq<Cell>, c: Byte)
    requires IsSheet(rows) && |tail| == PAGE - CELLS && Printable(c)
    requires |rows[|rows| - 1]| < COLS - 1
    ensures PutPrintable(Render(rows, tail), c) == Render(Extend(rows, c), tail)
  {
    var grown := rows[|rows| - 1 := rows[|rows| - 1] + [c]];
    PokeRow(rows, tail, c);
    assert Extend(rows, c) == grown;
    SamePage(PutPrintable(Render(rows, tail), c).page, Render(grown, tail).page);
  }

  /** The last column of a row that is not the last one on the screen. */
  lemma RenderRowEnd(rows: seq<Row>, tail: seq<Cell>, c: Byte)
    requires IsSheet(rows) && |tail| == PAGE - CELLS && Printable(c)
    requires |rows[|rows| - 1]| == COLS - 1 && |rows| < ROWS
    ensures PutPrintable(Render(rows, tail), c) == Render(Extend(rows, c), tail)
  {
    var row := rows[|rows| - 1] + [c];
    PokeRow(rows, tail, c);
    FullRow(rows, row, c);
    SamePage(PutPrintable(Render(rows, tail), c).page, Render(Extend(rows, c), tail).page);
  }

  lemma FullRow(rows: seq<Row>, row: Row, c: Byte)
    requires IsSheet(rows) && row == rows[|rows| - 1] + [c] && |row| == COLS && !IsBreak(c)
    ensures Extend(rows, c) == rows[|rows| - 1 := row] + [[]]
  {
  }

  /** The last cell of the screen: the page scrolls. */
  lemma RenderLastCell(rows: seq<Row>, tail: seq<Cell>, c: Byte)
    requires IsSheet(rows) && |tail| == PAGE - CELLS && Printable(c)
    requires |rows[|rows| - 1]| == COLS - 1 && |rows| >= ROWS
    ensures PutPrintable(Render(rows, tail), c) == Render(Extend(rows, c), tail)
  {
    var row, r := rows[|rows| - 1] + [c], Render(rows, tail);
    var grown := rows[|rows| - 1 := row];
    var page, longer := Poke(r.page, r.x, r.y, Cell(c, ATTRIB)), Render(grown + [[]], tail);
    PokeRow(rows, tail, c);
    FullRow(rows, row, c);
    assert PutPrintable(r, c) == Screen(ScrollUp(page), 0, ROWS - 1, 0);
    forall k | 0 <= k < CELLS
      ensures ScrollUp(page)[k] == longer.page[k]
    {
      if k < CELLS - COLS {
        assert (k + COLS) / COLS == k / COLS + 1 && (k + COLS) % COLS == k % COLS;
        ShorterSheet(grown, TopRow(rows) + 1 + k / COLS, k % COLS);
      }
    }
    SamePage(ScrollUp(page), longer.page);
  }

  lemma ShorterSheet(rows: seq<Row>, i: nat, col: nat)
    requires i < |rows|
    ensures CellOf(rows + [[]], i, col) == CellOf(rows, i, col)
  {
  }

  lemma RenderPrintable(rows: seq<Row>, tail: seq<Cell>, c: Byte)
    requires IsSheet(rows) && |tail| == PAGE - CELLS && Printable(c)
    ensures PutPrintable(Render(rows, tail), c) == Render(Extend(rows, c), tail)
  {
    if |rows[|rows| - 1]| < COLS - 1 {
      RenderInRow(rows, tail, c);
    } else if |rows| < ROWS {
      RenderRowEnd(rows, tail, c);
    } else {
      RenderLastCell(rows, tail, c);
    }
  }

  /** Scrolling refinement: from a cleared screen with flag 0, any stream of printable
      characters and line breaks leaves exactly the last 25 rows of the wrapped text on
      the screen, with the cursor at its end. */
  lemma {:induction false} ScrollingRefinement(s: Screen, text: seq<Byte>)
    requires Safe(s) && s.flag == 0
    requires forall i :: 0 <= i < |text| ==> text[i] != BACKSPACE
    ensures IsSheet(Wrap(text))
    ensures Feed(Cleared(s), Puts(text)) == Render(Wrap(text), s.page[CELLS..])
  {
    var tail := s.page[CELLS..];
    if text == [] {
      SamePage(Cleared(s).page, Render(Wrap(text), tail).page);
    } else {
      var front, c := text[..|text| - 1], text[|text| - 1];
      ScrollingRefinement(s, front);
      assert text == front + [c];
      WrapSnoc(front, c);
      PutsSnoc(Cleared(s), front, c);
      if IsBreak(c) {
        RenderBreak(Wrap(front), tail);
      } else {
        RenderPrintable(Wrap(front), tail, c);
      }
    }
  }

  // ----- line breaks and backspace

  /** Line feed and carriage return go to the start of the next row; on the bottom row the
      page moves up by one instead, and a row of blanks comes in. */
  lemma BreakGoesDown(s: Screen, c: Byte)
    requires Safe(s) && (c == 10 || c == 13)
    ensures var r := Apply(s, Put(c));
      && r.x == 0 && r.y == (if s.y == 24 then 24 else s.y + 1) && r.flag == 0
      && (s.y < 24 ==> r.page == s.page)
      && (s.y == 24 ==> forall k :: 0 <= k < 2000 ==>
            r.page[k] == if k < 1920 then s.page[k + 80] else Cell(32, 7))
  {
  }

  /** Where the cursor stands in the page. */
  function CursorOf(s: Screen): int { 80 * s.y + s.x }

  /** A backspace steps back one cell, if there is one, and blanks the cell it reaches; no
      other cell changes, nor does the flag. */
  lemma BackspaceBlanks(s: Screen)
    requires Safe(s)
    ensures var r, k := Apply(s, Put(8)), if CursorOf(s) == 0 then 0 else CursorOf(s) - 1;
      && 0 <= r.x < 80 && CursorOf(r) == k && r.flag == s.flag
      && r.page == s.page[k := Cell(32, 7)]
  {
  }

  /** A printable character that scrolls nothing, and then a backspace: the old page, with
      a blank in the cell the cursor stood on and stands on again. */
  lemma BackspaceUndoesPrintable(s: Screen, c: Byte)
    requires Safe(s) && s.flag == 0 && Printable(c)
    ensures var r := Feed(s, [Put(c), Put(8)]);
      r.x == s.x && r.y == s.y && r.page == s.page[CursorOf(s) := Cell(32, 7)]
  {
    FeedTwo(s, Put(c), Put(8));
    PrintableStores(s, c);
    BackspaceBlanks(Apply(s, Put(c)));
  }

  lemma FeedTwo(s: Screen, a: Op, b: Op)
    requires Safe(s)
    ensures Feed(s, [a, b]) == Apply(Apply(s, a), b)
  {
    assert [a, b] == ([] + [a]) + [b];
    FeedSnoc(s, [], a);
    FeedSnoc(s, [] + [a], b);
  }

  /** With no scroll pending a printable character goes where the cursor is, and the cursor
      one cell on. */
  lemma PrintableStores(s: Screen, c: Byte)
    requires Safe(s) && s.flag == 0 && Printable(c)
    ensures var r := Apply(s, Put(c));
      CursorOf(r) == CursorOf(s) + 1 && r.page == s.page[CursorOf(s) := Cell(c, 7)]
  {
  }

  // ----- where a stale flag breaks it

  /** What a printable character does on a terminal that scrolls exactly when the last
      cell is filled. */
  function Ideal(s: Screen, c: Byte): (seq<Cell>, int, int)
    requires Safe(s)
  {
    var page := Poke(s.page, s.x, s.y, Cell(c, ATTRIB));
    if AtLastCell(s) then (ScrollUp(page), 0, ROWS - 1)
    else (page, (s.x + 1) % COLS, s.y + (s.x + 1) / COLS)
  }

  /** A screen prints every character as it should iff flag 2 is up only on the last cell. */
  lemma PrintsIdeallyIff(s: Screen)
    requires Safe(s)
    ensures (forall c: Byte | Printable(c) ::
               var r := PutPrintable(s, c); (r.page, r.x, r.y) == Ideal(s, c))
            <==> (s.flag == 2 ==> AtLastCell(s))
  {
    if s.flag == 2 && !AtLastCell(s) {
      // The cell above the cursor's own is what scrolling would replace.
      var k := COLS * s.y + s.x;
      var above := if s.y > 0 then s.page[k - COLS].ch else 0;
      var c: Byte := if above == 65 then 66 else 65;
      var r := PutPrintable(s, c);
      assert Printable(c);
      if s.x == COLS - 1 && s.y == ROWS - 2 {
        assert r.page[k - COLS].ch == c;
        assert Ideal(s, c).0[k - COLS].ch == above;
      }
      assert (r.page, r.x, r.y) != Ideal(s, c);
    }
  }

  /** Backspacing away from the last cell leaves flag 2 behind, so the next printable
      character scrolls a row too early. */
  lemma BackspaceLeavesStaleFlag(s: Screen, c: Byte)
    requires Safe(s) && s.x == COLS - 2 && s.y == ROWS - 1 && s.flag == 0 && Printable(c)
    ensures var r := Feed(s, [Put(c), Put(BACKSPACE)]);
      r.x == s.x && r.y == s.y && r.flag == 2 && Putc(r, c).x == 0 && Ideal(r, c).1 == COLS - 1
  {
    var ops := [Put(c), Put(BACKSPACE)];
    assert ops[..1] == [Put(c)] && ops[..1][..0] == [];
    assert Feed(s, []) == s;
    assert Feed(s, ops[..1]) == Putc(s, c);
    assert Feed(s, ops) == Putc(Putc(s, c), BACKSPACE);
  }

  /** `clear` does not reset the flag either: the first character, stored in the top left
      cell, is scrolled off at once and lost, and the cursor is at the bottom. */
  lemma ClearLeavesStaleFlag(s: Screen, c: Byte)
    requires Safe(s) && AtLastCell(s) && Printable(c)
    ensures var r := Putc(Cleared(s), c);
      && (forall k :: 0 <= k < CELLS ==> r.page[k] == if k < CELLS - COLS then Cell(0, 7) else Cell(32, 7))
      && r.x == 0 && r.y == ROWS - 1
      && Ideal(Cleared(s), c).0[0] == Cell(c, ATTRIB) && Ideal(Cleared(s), c).1 == 1 && Ideal(Cleared(s), c).2 == 0
  {
    var page := Cleared(s).page;
    assert forall k :: 0 < k < CELLS ==> Poke(page, 0, 0, Cell(c, ATTRIB))[k] == NUL;
  }

  /** Without backspace and `clear` the flag is never stale. */
  lemma {:induction false} NoStaleFlag(s: Screen, ops: seq<Op>)
    requires Safe(s) && (s.flag == 2 ==> AtLastCell(s))
    requires forall i :: 0 <= i < |ops| ==> ops[i].Put? && ops[i].c != BACKSPACE
    ensures var r := Feed(s, ops); r.flag == 2 ==> AtLastCell(r)
  {
    if ops != [] {
      NoStaleFlag(s, ops[..|ops| - 1]);
    }
  }
}
