/** The keyboard line editor of one terminal and the read that collects its line, from
    decoded characters on. */
module LineEditor {

  type Byte = b: int | 0 <= b < 256

  const MAX_BUF := 128
  const ENTER: Byte := 10
  const BKSP: Byte := 8

  datatype Event = Key(c: Byte) | Written

  predicate IsText(c: Byte) { c != 0 && c != ENTER && c != BKSP }

  // ----- the text being edited

  /** A stack of characters of capacity 127, emptied by Enter and by every write. */
  function Edit(text: seq<Byte>, e: Event): seq<Byte> {
    match e
    case Written => []
    case Key(c) =>
      if c == ENTER then []
      else if c == BKSP then (if text == [] then text else text[..|text| - 1])
      else if c != 0 && |text| < MAX_BUF - 1 then text + [c]
      else text
  }

  function Edited(text: seq<Byte>, es: seq<Event>): (r: seq<Byte>)
    requires |text| < MAX_BUF
    ensures |r| < MAX_BUF
    decreases |es|
  {
    if es == [] then text else Edited(Edit(text, es[0]), es[1..])
  }

  function Keys(cs: seq<Byte>): seq<Event> { seq(|cs|, i requires 0 <= i < |cs| => Key(cs[i])) }

  function Repeated(e: Event, n: nat): seq<Event> { seq(n, _ => e) }

  lemma {:induction false} EditedAppend(text: seq<Byte>, a: seq<Event>, b: seq<Event>)
    requires |text| < MAX_BUF
    ensures Edited(text, a + b) == Edited(Edited(text, a), b)
    decreases |a|
  {
    if a == [] {
      assert a + b == b;
    } else {
      assert (a + b)[1..] == a[1..] + b;
      EditedAppend(Edit(text, a[0]), a[1..], b);
    }
  }

  lemma {:induction false} Typed(text: seq<Byte>, cs: seq<Byte>)
    requires |text| + |cs| < MAX_BUF && forall i :: 0 <= i < |cs| ==> IsText(cs[i])
    ensures Edited(text, Keys(cs)) == text + cs
    decreases |cs|
  {
    if cs != [] {
      assert Keys(cs)[1..] == Keys(cs[1..]);
      assert text + cs == text + [cs[0]] + cs[1..];
      Typed(text + [cs[0]], cs[1..]);
    } else {
      assert text + cs == text;
    }
  }

  lemma {:induction false} Erased(text: seq<Byte>, n: nat)
    requires n <= |text| < MAX_BUF
    ensures Edited(text, Repeated(Key(BKSP), n)) == text[..|text| - n]
    decreases n
  {
    if n > 0 {
      assert Repeated(Key(BKSP), n)[1..] == Repeated(Key(BKSP), n - 1);
      Erased(text[..|text| - 1], n - 1);
    }
  }

  /** The keys that leave the text as it is: one without a character, Backspace and Enter on
      an empty line, and any other on a line of 127 characters. */
  lemma IgnoredIff(text: seq<Byte>, c: Byte)
    requires |text| < 128
    ensures Edit(text, Key(c)) == text <==>
            c == 0 || (text == [] && (c == 8 || c == 10)) || (|text| == 127 && c != 8 && c != 10)
  {
  }

  /** As many backspaces as characters typed undo them exactly, when every character fit. */
  lemma EraseUndoesTyping(text: seq<Byte>, cs: seq<Byte>)
    requires |text| + |cs| < MAX_BUF && forall i :: 0 <= i < |cs| ==> IsText(cs[i])
    ensures Edited(text, Keys(cs) + Repeated(Key(BKSP), |cs|)) == text
  {
    EditedAppend(text, Keys(cs), Repeated(Key(BKSP), |cs|));
    Typed(text, cs);
    Erased(text + cs, |cs|);
  }

  /** One backspace undoes one character iff there was room for it: on a full line the
      character is dropped and the backspace takes an earlier one. */
  lemma BackspaceUndoesIff(text: seq<Byte>, c: Byte)
    requires |text| < MAX_BUF && IsText(c)
    ensures Edit(Edit(text, Key(c)), Key(BKSP)) == text <==> |text| < MAX_BUF - 1
  {
  }

  /** The text depends only on what came after the last Enter or write. */
  lemma {:induction false} SinceLastReset(text: seq<Byte>, before: seq<Event>, reset: Event, after: seq<Event>)
    requires |text| < MAX_BUF && (reset.Written? || reset.c == ENTER)
    ensures Edited(text, before + [reset] + after) == Edited([], after)
  {
    EditedAppend(text, before + [reset], after);
    EditedAppend(text, before, [reset]);
    assert [reset][1..] == [];
    assert Edited(Edited(text, before), [reset]) == [];
  }

  // ----- keys pressed before the published line is read

  /** The buffer and how much of it is the line being edited. */
  datatype Keyed = Keyed(buf: seq<Byte>, length: nat)

  ghost predicate KeyedOk(k: Keyed) { |k.buf| == MAX_BUF && k.length < MAX_BUF }

  function Press(k: Keyed, c: Byte): (r: Keyed)
    requires KeyedOk(k)
    ensures KeyedOk(r) && r.buf[..r.length] == Edit(k.buf[..k.length], Key(c))
  {
    if c == ENTER then Keyed(k.buf[k.length := ENTER], 0)
    else if c == BKSP then (if k.length == 0 then k else Keyed(k.buf[k.length - 1 := 0], k.length - 1))
    else if c != 0 && k.length < MAX_BUF - 1 then Keyed(k.buf[k.length := c], k.length + 1)
    else k
  }

  function Presses(k: Keyed, cs: seq<Byte>): (r: Keyed)
    requires KeyedOk(k)
    ensures KeyedOk(r)
  {
    if cs == [] then k else Press(Presses(k, cs[..|cs| - 1]), cs[|cs| - 1])
  }

  lemma {:induction false} PressesEdit(k: Keyed, cs: seq<Byte>)
    requires KeyedOk(k)
    ensures var r := Presses(k, cs); r.buf[..r.length] == Edited(k.buf[..k.length], Keys(cs))
  {
    if cs != [] {
      var front, c := cs[..|cs| - 1], cs[|cs| - 1];
      PressesEdit(k, front);
      EditedSnoc(k.buf[..k.length], front, c, cs);
    }
  }

  lemma EditedSnoc(text: seq<Byte>, front: seq<Byte>, c: Byte, cs: seq<Byte>)
    requires |text| < MAX_BUF && cs == front + [c]
    ensures Edited(text, Keys(cs)) == Edit(Edited(text, Keys(front)), Key(c))
  {
    assert Keys(cs) == Keys(front) + [Key(c)];
    EditedAppend(text, Keys(front), [Key(c)]);
    assert [Key(c)][1..] == [];
  }

  /** The longest the line is while the keys are pressed on an empty one. */
  function HighWater(cs: seq<Byte>): (h: nat)
    ensures |Edited([], Keys(cs))| <= h < MAX_BUF
  {
    var n := |Edited([], Keys(cs))|;
    if cs == [] then n
    else
      var h := HighWater(cs[..|cs| - 1]);
      if n > h then n else h
  }

  /** The keys spell a beginning of the line, and none of them was erased again. */
  predicate Spells(cs: seq<Byte>, line: seq<Byte>) {
    var text := Edited([], Keys(cs));
    HighWater(cs) == |text| && |text| < |line| && text == line[..|text|]
  }

  /** Behind the line stand NULs up to the high-water mark, and the old bytes from there. */
  lemma {:induction false} Layout(k: Keyed, cs: seq<Byte>)
    requires KeyedOk(k) && k.length == 0 && ENTER !in cs
    ensures var r, h := Presses(k, cs), HighWater(cs);
      && r.length <= h
      && (forall i :: r.length <= i < h ==> r.buf[i] == 0)
      && (forall i :: h <= i < MAX_BUF ==> r.buf[i] == k.buf[i])
      && ENTER !in r.buf[..r.length]
  {
    PressesEdit(k, cs);
    assert k.buf[..0] == [];
    if cs != [] {
      var front, c := cs[..|cs| - 1], cs[|cs| - 1];
      Layout(k, front);
      var q, r := Presses(k, front), Presses(k, cs);
      assert r.buf[..r.length] == Edit(q.buf[..q.length], Key(c));
    }
  }

  /** A line published and then typed over reads as it was published exactly when the keys
      spell a beginning of it and none of them was erased again. */
  lemma TypeAheadIff(k: Keyed, line: seq<Byte>, cs: seq<Byte>)
    requires KeyedOk(k) && k.length == 0 && ENTER !in cs
    requires 0 < |line| <= MAX_BUF && 0 !in line && line[|line| - 1] == ENTER && k.buf[..|line|] == line
    ensures Presses(k, cs).buf[..|line|] == line <==> Spells(cs, line)
  {
    var r, h := Presses(k, cs), HighWater(cs);
    Layout(k, cs);
    PressesEdit(k, cs);
    assert k.buf[..0] == [];
    if r.buf[..|line|] == line {
      KeptMeans(r.buf, line, r.length, h);
    }
    if h == r.length < |line| && r.buf[..r.length] == line[..r.length] {
      KeptIf(r.buf, k.buf, line, h);
    }
  }

  lemma KeptMeans(buf: seq<Byte>, line: seq<Byte>, n: nat, h: nat)
    requires n <= h < |buf| == MAX_BUF && 0 < |line| <= MAX_BUF
    requires (forall i :: n <= i < h ==> buf[i] == 0) && ENTER !in buf[..n]
    requires 0 !in line && line[|line| - 1] == ENTER && buf[..|line|] == line
    ensures h == n < |line| && buf[..n] == line[..n]
  {
    var last := |line| - 1;
    assert buf[last] == buf[..|line|][last] == ENTER;
    NoneAt(buf, n, ENTER);
    assert buf[n] == buf[..|line|][n] == line[n] && line[n] in line;
    assert buf[..n] == buf[..|line|][..n];
  }

  lemma NoneAt(buf: seq<Byte>, n: nat, c: Byte)
    requires n <= |buf| && c !in buf[..n]
    ensures forall i :: 0 <= i < n ==> buf[i] != c
  {
    forall i | 0 <= i < n
      ensures buf[i] != c
    {
      assert buf[i] == buf[..n][i];
    }
  }

  lemma KeptIf(buf: seq<Byte>, was: seq<Byte>, line: seq<Byte>, n: nat)
    requires |buf| == |was| == MAX_BUF && n < |line| <= MAX_BUF && was[..|line|] == line
    requires (forall i :: n <= i < MAX_BUF ==> buf[i] == was[i]) && buf[..n] == line[..n]
    ensures buf[..|line|] == line
  {
    assert buf[n..] == was[n..];
    assert line[n..] == was[n..][..|line| - n];
    assert buf[..|line|] == buf[..n] + buf[n..][..|line| - n];
    assert line == line[..n] + line[n..];
  }

  // ----- a read and the keys pressed after it began

  /** The keyboard's part of a terminal; `entered` is the flag a read waits for. */
  datatype Tty = Tty(keyed: Keyed, readLength: nat, entered: bool)

  ghost predicate TtyOk(t: Tty) { KeyedOk(t.keyed) && t.readLength <= MAX_BUF }

  function Strike(t: Tty, c: Byte): (r: Tty)
    requires TtyOk(t)
    ensures TtyOk(r)
  {
    Tty(Press(t.keyed, c), if c == ENTER then t.keyed.length + 1 else t.readLength, t.entered || c == ENTER)
  }

  function Strikes(t: Tty, cs: seq<Byte>): (r: Tty)
    requires TtyOk(t)
    ensures TtyOk(r) && r.keyed == Presses(t.keyed, cs)
  {
    if cs == [] then t else Strike(Strikes(t, cs[..|cs| - 1]), cs[|cs| - 1])
  }

  /** A read begins by forgetting that a line was entered. */
  function ReadBegun(t: Tty): Tty { t.(entered := false) }

  lemma {:induction false} StrikesAppend(t: Tty, a: seq<Byte>, b: seq<Byte>)
    requires TtyOk(t)
    ensures Strikes(t, a + b) == Strikes(Strikes(t, a), b)
    decreases |b|
  {
    if b == [] {
      assert a + b == a;
    } else {
      StrikesAppend(t, a, b[..|b| - 1]);
      assert (a + b)[..|a + b| - 1] == a + b[..|b| - 1];
    }
  }

  /** A read goes on waiting exactly until Enter is pressed; an Enter before it began does
      not count, and its line is never returned. */
  lemma {:induction false} ReturnsIff(t: Tty, cs: seq<Byte>)
    requires TtyOk(t)
    ensures Strikes(ReadBegun(t), cs).entered <==> ENTER in cs
  {
    if cs != [] {
      ReturnsIff(t, cs[..|cs| - 1]);
      assert cs == cs[..|cs| - 1] + [cs[|cs| - 1]];
    }
  }

  lemma {:induction false} NoEnter(t: Tty, cs: seq<Byte>)
    requires TtyOk(t) && ENTER !in cs
    ensures Strikes(t, cs).readLength == t.readLength
  {
    if cs != [] {
      NoEnter(t, cs[..|cs| - 1]);
    }
  }

  /** What a read finds when it goes on: the line as it stood at the last Enter, with that
      Enter, exactly if the keys since then spell a beginning of it. */
  lemma ReadFinds(t: Tty, before: seq<Byte>, after: seq<Byte>)
    requires TtyOk(t) && ENTER !in after
    ensures var line := Edited(t.keyed.buf[..t.keyed.length], Keys(before)) + [ENTER];
      var r := Strikes(ReadBegun(t), before + [ENTER] + after);
      && r.entered && r.readLength == |line| <= MAX_BUF
      && (0 !in line ==> (r.keyed.buf[..|line|] == line <==> Spells(after, line)))
  {
    var t0 := ReadBegun(t);
    var t1 := Strikes(t0, before);
    var t2 := Strike(t1, ENTER);
    var line := Edited(t.keyed.buf[..t.keyed.length], Keys(before)) + [ENTER];
    PressesEdit(t0.keyed, before);
    assert Strikes(t0, before + [ENTER]) == t2 by {
      assert (before + [ENTER])[..|before|] == before;
    }
    StrikesAppend(t0, before + [ENTER], after);
    ReturnsIff(t, before + [ENTER] + after);
    NoEnter(t2, after);
    assert t2.keyed.buf[..|line|] == line;
    if 0 !in line {
      TypeAheadIff(t2.keyed, line, after);
    }
  }

  // ----- the terminal's buffer

  class Line {
    const tempbuf: array<Byte>
    var length: int
    var readLength: int
    var enterFlag: bool

    ghost predicate Valid()
      reads this
    {
      tempbuf.Length == MAX_BUF && 0 <= length < MAX_BUF && 0 <= readLength <= MAX_BUF
    }

    ghost function Text(): seq<Byte>
      requires Valid()
      reads this, tempbuf
    {
      tempbuf[..length]
    }

    ghost function Now(): (t: Tty)
      requires Valid()
      reads this, tempbuf
      ensures TtyOk(t)
    {
      Tty(Keyed(tempbuf[..], length), readLength, enterFlag)
    }

    /** The line last published by Enter, while no key has followed it. */
    ghost function Published(): seq<Byte>
      requires Valid()
      reads this, tempbuf
    {
      tempbuf[..readLength]
    }

    constructor ()
      ensures Valid() && Text() == [] && fresh(tempbuf)
    {
      tempbuf := new Byte[MAX_BUF](_ => 0);
      length, readLength, enterFlag := 0, 0, false;
    }

    /** The edit stage of the keyboard handler. */
    method PrintKeycode(cmd: Byte)
      requires Valid()
      modifies this, tempbuf
      ensures Valid() && Text() == Edit(old(Text()), Key(cmd))
      ensures Now() == Strike(old(Now()), cmd)
      ensures cmd == ENTER ==> enterFlag && Published() == old(Text()) + [ENTER]
      ensures cmd != ENTER ==> enterFlag == old(enterFlag) && readLength == old(readLength)
    {
      var strLen := length;
      if cmd != 0 && cmd != ENTER && strLen < MAX_BUF - 1 && cmd != BKSP {
        tempbuf[strLen] := cmd;
        strLen := strLen + 1;
        length := strLen;
      } else if cmd == ENTER {
        tempbuf[strLen] := ENTER;
        strLen := strLen + 1;
        length := 0;
        readLength := strLen;
        enterFlag := true;
      } else if cmd == BKSP {
        if strLen > 0 {
          strLen := strLen - 1;
          tempbuf[strLen] := 0;
          length := strLen;
        }
      } else if strLen == MAX_BUF - 1 {
        return;
      }
    }

    /** The first step of terminal_read on this terminal. */
    method BeginRead()
      requires Valid()
      modifies this`enterFlag
      ensures Valid() && Now() == ReadBegun(old(Now()))
    {
      enterFlag := false;
    }

    /** What terminal_write does to the line. */
    method ResetByWrite()
      requires Valid()
      modifies this`length
      ensures Valid() && Text() == Edit(old(Text()), Written)
    {
      length := 0;
    }

    /** Zeroes the buffer but keeps the length: the text survives iff there was none. */
    method ClearTempBuff()
      requires Valid()
      modifies tempbuf
      ensures Valid() && Text() == seq(length, _ => 0)
      ensures (forall c :: c in old(Text()) ==> c != 0) ==> (Text() == old(Text()) <==> length == 0)
    {
      ghost var was := Text();
      var j := 0;
      while j < MAX_BUF
        invariant 0 <= j <= MAX_BUF
        invariant forall k :: 0 <= k < j ==> tempbuf[k] == 0
      {
        tempbuf[j] := 0;
        j := j + 1;
      }
      if length > 0 {
        assert was[0] in was && Text()[0] == 0;
      } else {
        assert was == [] == Text();
      }
    }
  }

  /** terminal_read once Enter has been pressed: the active terminal's buffer, but the
      displayed terminal's length. It is the published line iff the two lengths agree, as
      they do when the active terminal is the one displayed. `buf` is the memory from the
      caller's buffer on, of which nbytes were offered; the read never looks at nbytes. */
  method TerminalRead(active: Line, displayed: Line, buf: array<Byte>, nbytes: int) returns (r: int)
    requires active.Valid() && displayed.Valid() && active.enterFlag
    requires displayed.readLength <= buf.Length && nbytes <= buf.Length
    requires buf != active.tempbuf && buf != displayed.tempbuf
    modifies buf
    ensures 0 <= r <= MAX_BUF && r == displayed.readLength && buf[..r] == active.tempbuf[..r]
    ensures buf[..r] == active.Published() <==> displayed.readLength == active.readLength
    ensures active == displayed ==> buf[..r] == active.Published()
    ensures r <= nbytes ==> buf[nbytes..] == old(buf[nbytes..])
    ensures 0 <= nbytes < r ==> buf[nbytes..r] == active.tempbuf[nbytes..r]
    ensures buf[r..] == old(buf[r..])
  {
    var length := displayed.readLength;
    if MAX_BUF <= length {
      length := MAX_BUF;
    }
    var i := 0;
    while i < length
      invariant 0 <= i <= length
      invariant forall k :: 0 <= k < i ==> buf[k] == active.tempbuf[k]
      invariant forall k :: i <= k < buf.Length ==> buf[k] == old(buf[k])
    {
      buf[i] := active.tempbuf[i];
      i := i + 1;
    }
    assert |active.Published()| == active.readLength;
    return length;
  }
}
