/** Three terminals sharing one video memory: VIDEO and a backing page for each
    terminal, swapped whole when another terminal is displayed. */
module Console {
  import opened Screen

  datatype Event =
    | Write(t: int, c: Byte)
    | Wipe
    | Open(k: int)

  /** What the three users see: one screen each, and which one is on display. */
  datatype View = View(screens: seq<Screen>, displayed: int)

  ghost predicate ViewOk(v: View) {
    && |v.screens| == 3 && 0 <= v.displayed < 3
    && forall t :: 0 <= t < 3 ==> Safe(v.screens[t])
  }

  ghost predicate EventOk(e: Event) {
    match e
    case Write(t, _) => 0 <= t < 3
    case Wipe => true
    case Open(k) => 0 <= k
  }

  /** A character reaches its own terminal only, `clear` only the displayed one, and a
      switch no screen at all. */
  function Step(v: View, e: Event): (r: View)
    requires ViewOk(v) && EventOk(e)
    ensures ViewOk(r)
  {
    match e
    case Write(t, c) => v.(screens := v.screens[t := Apply(v.screens[t], Put(c))])
    case Wipe => v.(screens := v.screens[v.displayed := Apply(v.screens[v.displayed], Clear)])
    case Open(k) => if k < 3 then v.(displayed := k) else v
  }

  function Run(v: View, es: seq<Event>): (r: View)
    requires ViewOk(v) && forall i :: 0 <= i < |es| ==> EventOk(es[i])
    ensures ViewOk(r)
    decreases |es|
  {
    if es == [] then v else Run(Step(v, es[0]), es[1..])
  }

  /** The operations terminal t itself receives in a run that starts with `displayed` shown. */
  function Own(es: seq<Event>, displayed: int, t: int): seq<Op>
    decreases |es|
  {
    if es == [] then []
    else
      match es[0]
      case Write(u, c) => (if u == t then [Put(c)] else []) + Own(es[1..], displayed, t)
      case Wipe => (if displayed == t then [Clear] else []) + Own(es[1..], displayed, t)
      case Open(k) => Own(es[1..], if k < 3 then k else displayed, t)
  }

  lemma {:induction false} FeedCons(s: Screen, op: Op, ops: seq<Op>)
    requires Safe(s)
    ensures Feed(s, [op] + ops) == Feed(Apply(s, op), ops)
    decreases |ops|
  {
    if ops == [] {
      assert [op] + ops == [] + [op];
      FeedSnoc(s, [], op);
    } else {
      var front, last := ops[..|ops| - 1], ops[|ops| - 1];
      assert [op] + ops == ([op] + front) + [last];
      FeedCons(s, op, front);
      FeedSnoc(s, [op] + front, last);
    }
  }

  /** Non-interference: whatever the interleaving, each terminal ends as a private screen
      fed only its own operations would. */
  lemma {:induction false} NonInterference(v: View, es: seq<Event>, t: int)
    requires ViewOk(v) && 0 <= t < 3
    requires forall i :: 0 <= i < |es| ==> EventOk(es[i])
    ensures Run(v, es).screens[t] == Feed(v.screens[t], Own(es, v.displayed, t))
    decreases |es|
  {
    if es != [] {
      var v', rest := Step(v, es[0]), es[1..];
      NonInterference(v', rest, t);
      var ops := Own(rest, v'.displayed, t);
      assert [] + ops == ops;
      match es[0]
      case Write(u, c) => if u == t { FeedCons(v.screens[t], Put(c), ops); }
      case Wipe => if v.displayed == t { FeedCons(v.screens[t], Clear, ops); }
      case Open(_) =>
    }
  }

  /** What one terminal is sent cannot be seen on another: dropping every character meant
      for other terminals leaves terminal t's screen unchanged. */
  lemma {:induction false} OthersInvisible(v: View, es: seq<Event>, fs: seq<Event>, t: int)
    requires ViewOk(v) && 0 <= t < 3
    requires forall i :: 0 <= i < |es| ==> EventOk(es[i])
    requires forall i :: 0 <= i < |fs| ==> EventOk(fs[i])
    requires Without(es, t) == fs
    ensures Run(v, es).screens[t] == Run(v, fs).screens[t]
  {
    NonInterference(v, es, t);
    NonInterference(v, fs, t);
    OwnWithout(es, v.displayed, t);
  }

  function Without(es: seq<Event>, t: int): seq<Event>
    decreases |es|
  {
    if es == [] then []
    else (if es[0].Write? && es[0].t != t then [] else [es[0]]) + Without(es[1..], t)
  }

  lemma {:induction false} OwnWithout(es: seq<Event>, displayed: int, t: int)
    ensures Own(Without(es, t), displayed, t) == Own(es, displayed, t)
    decreases |es|
  {
    if es != [] {
      var next := if es[0].Open? && es[0].k < 3 then es[0].k else displayed;
      OwnWithout(es[1..], next, t);
      assert [] + Without(es[1..], t) == Without(es[1..], t);
      assert ([es[0]] + Without(es[1..], t))[1..] == Without(es[1..], t);
      assert [] + Own(es[1..], displayed, t) == Own(es[1..], displayed, t);
    }
  }

  /** Both results together: a terminal cleared while displayed and then sent text shows
      the last 25 rows of that text, whatever else runs and whichever terminal is on view. */
  lemma ShowsOwnText(v: View, es: seq<Event>, t: int, text: seq<Byte>)
    requires ViewOk(v) && 0 <= t < 3 && v.displayed == t && v.screens[t].flag == 0
    requires forall i :: 0 <= i < |es| ==> EventOk(es[i])
    requires Own(es, t, t) == Puts(text)
    requires forall i :: 0 <= i < |text| ==> text[i] != BACKSPACE
    ensures IsSheet(Wrap(text))
    ensures Run(Step(v, Wipe), es).screens[t] == Render(Wrap(text), v.screens[t].page[CELLS..])
  {
    NonInterference(Step(v, Wipe), es, t);
    ScrollingRefinement(v.screens[t], text);
  }

  // ----- the video memory

  function PageAt(mem: seq<Cell>, base: int): (page: seq<Cell>)
    requires 0 <= base <= |mem| - PAGE
    ensures |page| == PAGE
    ensures forall k :: 0 <= k < PAGE ==> page[k] == mem[base + k]
  {
    mem[base..base + PAGE]
  }

  /** A pending scroll, flag 1, is carried out before the next character is printed. */
  function Ready(s: Screen): Screen
    requires |s.page| == PAGE
  {
    if s.flag == 1 then s.(page := ScrollUp(s.page), flag := 0) else s
  }

  /** Where terminal t is kept while another one is displayed. */
  function Backing(t: int): int { PAGE * (t + 1) }

  /** Nothing outside the page at `base` differs. */
  ghost predicate OnlyPage(mem: seq<Cell>, was: seq<Cell>, base: int) {
    && |mem| == |was|
    && forall k :: 0 <= k < |mem| && !(base <= k < base + PAGE) ==> mem[k] == was[k]
  }

  lemma OtherPage(mem: seq<Cell>, was: seq<Cell>, base: int, other: int)
    requires OnlyPage(mem, was, base) && 0 <= other <= |mem| - PAGE
    requires other + PAGE <= base || base + PAGE <= other
    ensures PageAt(mem, other) == PageAt(was, other)
  {
  }

  /** The cells already shifted after i whole columns and j rows of the next one. */
  predicate Shifted(k: int, i: int, j: int) {
    k % COLS < i || (k % COLS == i && k / COLS < j)
  }

  ghost predicate ShiftState(mem: seq<Cell>, was: seq<Cell>, base: int, i: int, j: int) {
    && |mem| == |was| && 0 <= base <= |mem| - PAGE
    && (forall k :: base <= k < base + CELLS - COLS ==>
          mem[k] == was[if Shifted(k - base, i, j) then k + COLS else k])
    && (forall k :: 0 <= k < |mem| && !(base <= k < base + CELLS - COLS) ==> mem[k] == was[k])
  }

  lemma ShiftCell(mem: seq<Cell>, was: seq<Cell>, base: int, i: int, j: int)
    requires 0 <= i < COLS && 0 <= j < ROWS - 1 && ShiftState(mem, was, base, i, j)
    ensures var here := base + COLS * j + i;
      ShiftState(mem[here := mem[here + COLS]], was, base, i, j + 1)
  {
    var here := COLS * j + i;
    assert here % COLS == i && here / COLS == j;
    assert (here + COLS) % COLS == i && (here + COLS) / COLS == j + 1;
    assert !Shifted(here + COLS, i, j) && Shifted(here, i, j + 1);
    assert mem[base + here + COLS] == was[base + here + COLS];
    forall k | 0 <= k < CELLS - COLS && k != here
      ensures Shifted(k, i, j + 1) <==> Shifted(k, i, j)
    {
      assert k == COLS * (k / COLS) + k % COLS;
    }
  }

  lemma ShiftColumn(mem: seq<Cell>, was: seq<Cell>, base: int, i: int)
    requires 0 <= i < COLS && ShiftState(mem, was, base, i, ROWS - 1)
    ensures ShiftState(mem, was, base, i + 1, 0)
  {
    var j := ROWS - 1;
    forall k | 0 <= k < CELLS - COLS
      ensures Shifted(k, i, j) <==> Shifted(k, i + 1, 0)
    {
    }
  }

  lemma ScrolledPage(was: seq<Cell>, shifted: seq<Cell>, mem: seq<Cell>, base: int)
    requires ShiftState(shifted, was, base, COLS, 0) && |mem| == |was|
    requires forall k :: 0 <= k < |mem| ==>
      mem[k] == if base + CELLS - COLS <= k < base + CELLS then BLANK else shifted[k]
    ensures PageAt(mem, base) == ScrollUp(PageAt(was, base)) && OnlyPage(mem, was, base)
  {
    forall k | base <= k < base + CELLS - COLS
      ensures mem[k] == was[k + COLS]
    {
      assert Shifted(k - base, COLS, 0);
    }
    SamePage(PageAt(mem, base), ScrollUp(PageAt(was, base)));
  }

  /** Terminal t's screen, fed some text. */
  ghost function Printed(v: View, t: int, text: seq<Byte>): (r: View)
    requires ViewOk(v) && 0 <= t < 3
    ensures ViewOk(r)
  {
    v.(screens := v.screens[t := Feed(v.screens[t], Puts(text))])
  }

  lemma PrintedSnoc(v: View, t: int, text: seq<Byte>, c: Byte)
    requires ViewOk(v) && 0 <= t < 3
    ensures Step(Printed(v, t, text), Write(t, c)) == Printed(v, t, text + [c])
  {
    PutsSnoc(v.screens[t], text, c);
  }

  class Video {
    const mem: array<Cell>  // page 0 is VIDEO, page t + 1 backs terminal t
    const x: array<int>
    const y: array<int>
    const flag: array<int>
    var displayed: int

    ghost predicate Shape()
      reads this
    {
      && mem.Length == 4 * PAGE && x.Length == y.Length == flag.Length == 3
      && x != y && y != flag && x != flag && 0 <= displayed < 3
    }

    function Base(t: int): int
      reads this
    {
      if t == displayed then 0 else Backing(t)
    }

    /** Terminal t's logical screen: VIDEO if it is displayed, its backing page otherwise. */
    ghost function Logical(t: int): Screen
      requires Shape() && 0 <= t < 3
      reads this, mem, x, y, flag
    {
      Screen(PageAt(mem[..], Base(t)), x[t], y[t], flag[t])
    }

    ghost predicate Valid()
      reads this, mem, x, y, flag
    {
      Shape() && forall t :: 0 <= t < 3 ==> Safe(Logical(t))
    }

    ghost function Seen(): View
      requires Shape()
      reads this, mem, x, y, flag
    {
      View([Logical(0), Logical(1), Logical(2)], displayed)
    }

    method ShiftUpByOne(t: int)
      requires Shape() && 0 <= t < 3
      modifies mem
      ensures PageAt(mem[..], Base(t)) == ScrollUp(PageAt(old(mem[..]), Base(t)))
      ensures OnlyPage(mem[..], old(mem[..]), Base(t))
    {
      ghost var was := mem[..];
      ShiftRows(Base(t));
      ghost var shifted := mem[..];
      BlankLastRow(Base(t));
      ScrolledPage(was, shifted, mem[..], Base(t));
    }

    /** Every row takes over the one below it, column by column. */
    method ShiftRows(base: int)
      requires Shape() && 0 <= base <= mem.Length - PAGE
      modifies mem
      ensures ShiftState(mem[..], old(mem[..]), base, COLS, 0)
    {
      ghost var was := mem[..];
      var i := 0;
      while i < COLS
        invariant 0 <= i <= COLS
        invariant ShiftState(mem[..], was, base, i, 0)
      {
        var j := 0;
        while j < ROWS - 1
          invariant 0 <= j <= ROWS - 1
          invariant ShiftState(mem[..], was, base, i, j)
        {
          ghost var now := mem[..];
          ShiftCell(now, was, base, i, j);
          mem[base + COLS * j + i] := mem[base + COLS * (j + 1) + i];
          assert mem[..] == now[base + COLS * j + i := now[base + COLS * j + i + COLS]];
          j := j + 1;
        }
        ShiftColumn(mem[..], was, base, i);
        i := i + 1;
      }
    }

    method BlankLastRow(base: int)
      requires Shape() && 0 <= base <= mem.Length - PAGE
      modifies mem
      ensures forall k :: 0 <= k < mem.Length ==>
        mem[k] == if base + CELLS - COLS <= k < base + CELLS then BLANK else old(mem[k])
    {
      ghost var was := mem[..];
      var i := 0;
      while i < COLS
        invariant 0 <= i <= COLS
        invariant forall k :: 0 <= k < mem.Length ==>
          mem[k] == if base + CELLS - COLS <= k < base + CELLS - COLS + i then BLANK else was[k]
      {
        mem[base + COLS * (ROWS - 1) + i] := BLANK;
        i := i + 1;
      }
    }

    /** Only terminal t's page and struct may differ from the old state. */
    twostate predicate OnlyOwn(t: int)
      requires old(Shape()) && Shape() && 0 <= t < 3
      reads this, mem, x, y, flag
    {
      && displayed == old(displayed) && OnlyPage(mem[..], old(mem[..]), Base(t))
      && forall u :: 0 <= u < 3 && u != t ==>
        x[u] == old(x[u]) && y[u] == old(y[u]) && flag[u] == old(flag[u])
    }

    method LineBreak(t: int)
      requires Shape() && 0 <= t < 3 && Safe(Logical(t))
      modifies x, y, flag
      ensures OnlyOwn(t)
      ensures var s := old(Logical(t));
        Logical(t) == if s.y == ROWS - 1 then s.(x := 0, flag := 1) else PutBreak(s)
    {
      flag[t] := 0;
      y[t] := y[t] + 1;
      x[t] := 0;
      if y[t] >= ROWS {
        y[t] := ROWS - 1;
        x[t] := 0;
        flag[t] := 1;
      }
    }

    /** Writes one cell, character and attribute, at terminal t's cursor. */
    method Store(t: int, cell: Cell)
      requires Shape() && 0 <= t < 3 && 0 <= x[t] < COLS && 0 <= y[t] < ROWS
      modifies mem
      ensures PageAt(mem[..], Base(t)) == Poke(PageAt(old(mem[..]), Base(t)), x[t], y[t], cell)
      ensures OnlyPage(mem[..], old(mem[..]), Base(t))
    {
      mem[Base(t) + COLS * y[t] + x[t]] := cell;
    }

    method Erase(t: int)
      requires Shape() && 0 <= t < 3 && Safe(Logical(t))
      modifies mem, x, y
      ensures OnlyOwn(t) && Logical(t) == PutBackspace(old(Logical(t)))
      ensures var k := if old(CursorOf(Logical(t))) == 0 then 0 else old(CursorOf(Logical(t))) - 1;
        CursorOf(Logical(t)) == k && Logical(t).page == old(Logical(t)).page[k := Cell(32, 7)]
    {
      if x[t] > 0 {
        x[t] := x[t] - 1;
      } else if x[t] == 0 && y[t] != 0 {
        y[t] := y[t] - 1;
        x[t] := COLS - 1;
      }
      Store(t, BLANK);
      BackspaceBlanks(old(Logical(t)));
    }

    /** A pending scroll is carried out. */
    method ScrollPending(t: int)
      requires Shape() && 0 <= t < 3
      modifies mem, flag
      ensures OnlyOwn(t) && Logical(t) == Ready(old(Logical(t)))
    {
      if flag[t] == 1 {
        ShiftUpByOne(t);
        flag[t] := 0;
      }
    }

    /** The character is stored and the cursor moves on. */
    method PutCell(t: int, c: Byte)
      requires Shape() && 0 <= t < 3 && Safe(Logical(t))
      modifies mem, x, y
      ensures OnlyOwn(t)
      ensures var s := old(Logical(t));
        Logical(t) == Screen(Poke(s.page, s.x, s.y, Cell(c, ATTRIB)),
                             (s.x + 1) % COLS, (s.y + (s.x + 1) / COLS) % ROWS, s.flag)
    {
      Store(t, Cell(c, ATTRIB));
      x[t] := x[t] + 1;
      y[t] := (y[t] + x[t] / COLS) % ROWS;
      x[t] := x[t] % COLS;
    }

    method Print(t: int, c: Byte)
      requires Shape() && 0 <= t < 3 && Safe(Ready(Logical(t)))
      modifies mem, x, y, flag
      ensures OnlyOwn(t)
      ensures Logical(t).(flag := 0) == PutPrintable(Ready(old(Logical(t))), c).(flag := 0)
      ensures flag[t] == 0
    {
      ScrollPending(t);
      PutCell(t, c);
      if flag[t] == 2 {
        ShiftUpByOne(t);
        x[t] := 0;
        y[t] := ROWS - 1;
        flag[t] := 0;
      }
    }

    /** What every call ends with: the last cell is marked, a marked line break scrolls. */
    method Settle(t: int)
      requires Shape() && 0 <= t < 3
      modifies mem, x, y, flag
      ensures OnlyOwn(t)
      ensures var s := old(Logical(t));
        Logical(t) ==
        if AtLastCell(s) then s.(flag := 2)
        else if s.flag == 1 then Screen(ScrollUp(s.page), 0, ROWS - 1, 0)
        else s
    {
      if y[t] == ROWS - 1 && x[t] == COLS - 1 {
        flag[t] := 2;
      }
      if flag[t] == 1 {
        ShiftUpByOne(t);
        x[t] := 0;
        y[t] := ROWS - 1;
        flag[t] := 0;
      }
    }

    method Putc(t: int, c: Byte)
      requires Valid() && 0 <= t < 3
      modifies mem, x, y, flag
      ensures Valid() && displayed == old(displayed)
      ensures Seen() == Step(old(Seen()), Write(t, c))
    {
      ghost var s := Logical(t);
      if IsBreak(c) {
        LineBreak(t);
      } else if c == BACKSPACE {
        Erase(t);
      } else {
        Print(t, c);
      }
      Settle(t);
      assert Logical(t) == Apply(s, Put(c));
      OthersKept(t);
    }

    /** After a write confined to terminal t's page and struct, only its screen differs. */
    twostate lemma OthersKept(t: int)
      requires old(Shape()) && Shape() && 0 <= t < 3 && OnlyOwn(t)
      ensures forall u :: 0 <= u < 3 && u != t ==> Logical(u) == old(Logical(u))
      ensures Seen() == old(Seen()).(screens := old(Seen()).screens[t := Logical(t)])
    {
      forall u | 0 <= u < 3 && u != t
        ensures Logical(u) == old(Logical(u))
      {
        OtherPage(mem[..], old(mem[..]), Base(t), Base(u));
      }
    }

    method Clear()
      requires Valid()
      modifies mem, x, y
      ensures Valid() && displayed == old(displayed)
      ensures Seen() == Step(old(Seen()), Wipe)
    {
      ghost var s, was := Logical(displayed), mem[..];
      var i := 0;
      while i < ROWS * COLS
        invariant 0 <= i <= CELLS
        invariant forall k :: 0 <= k < mem.Length ==> mem[k] == if k < i then NUL else was[k]
        modifies mem
      {
        mem[i] := NUL;
        i := i + 1;
      }
      x[displayed] := 0;
      y[displayed] := 0;
      SamePage(PageAt(mem[..], 0), Cleared(s).page);
      OthersKept(displayed);
    }

    /** Copies one whole page over another. */
    method CopyPage(to: int, from: int)
      requires Shape() && 0 <= to <= 3 * PAGE && 0 <= from <= 3 * PAGE
      requires to + PAGE <= from || from + PAGE <= to
      modifies mem
      ensures PageAt(mem[..], to) == PageAt(old(mem[..]), from)
      ensures OnlyPage(mem[..], old(mem[..]), to)
    {
      ghost var was := mem[..];
      var i := 0;
      while i < PAGE
        invariant 0 <= i <= PAGE
        invariant forall k :: to <= k < to + i ==> mem[k] == was[from + k - to]
        invariant forall k :: 0 <= k < to || to + i <= k < mem.Length ==> mem[k] == was[k]
      {
        mem[to + i] := mem[from + i];
        i := i + 1;
      }
    }

    method Save(t: int)
      requires Shape() && t == displayed
      modifies mem, x, y
      ensures PageAt(mem[..], Backing(t)) == PageAt(old(mem[..]), 0)
      ensures OnlyPage(mem[..], old(mem[..]), Backing(t))
      ensures x[..] == old(x[..]) && y[..] == old(y[..])
    {
      x[t] := x[displayed];
      y[t] := y[displayed];
      CopyPage(Backing(t), 0);
    }

    method Restore(t: int)
      requires Shape() && t == displayed
      modifies mem
      ensures PageAt(mem[..], 0) == PageAt(old(mem[..]), Backing(t))
      ensures OnlyPage(mem[..], old(mem[..]), 0)
    {
      CopyPage(0, Backing(displayed));
    }

    method OpenTerminal(k: int) returns (r: int)
      requires Valid() && 0 <= k
      modifies this`displayed, mem, x, y
      ensures Valid()
      ensures r == if k > 2 then -1 else 0
      ensures Seen() == Step(old(Seen()), Open(k))
    {
      if k > 2 {
        return -1;
      }
      if k == displayed {
        return 0;
      }
      ghost var d, was := displayed, mem[..];
      Save(displayed);
      ghost var saved := mem[..];
      displayed := k;
      Restore(displayed);
      forall t | 0 <= t < 3
        ensures Logical(t) == old(Logical(t))
      {
        OtherPage(mem[..], saved, 0, Backing(t));
        if t != d {
          OtherPage(saved, was, Backing(d), Backing(t));
        }
      }
      return 0;
    }

    /** `terminal_write`: prints buf on terminal t. */
    method TerminalWrite(t: int, buf: seq<Byte>) returns (r: int)
      requires Valid() && 0 <= t < 3
      modifies mem, x, y, flag
      ensures Valid() && displayed == old(displayed)
      ensures r == if buf == [] then -1 else 0
      ensures Seen() == Printed(old(Seen()), t, buf)
    {
      ghost var v := Seen();
      assert Printed(v, t, []) == v;
      if |buf| <= 0 {
        return -1;
      }
      var i := 0;
      while i < |buf|
        invariant 0 <= i <= |buf|
        invariant Valid() && displayed == old(displayed)
        invariant Seen() == Printed(v, t, buf[..i])
      {
        Putc(t, buf[i]);
        assert buf[..i + 1] == buf[..i] + [buf[i]];
        PrintedSnoc(v, t, buf[..i], buf[i]);
        i := i + 1;
      }
      assert buf[..i] == buf;
      return 0;
    }
  }
}
