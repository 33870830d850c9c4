/** The kernel's own command line: execute_call finds the program name and keeps the text
    behind it in the process control block, getargs_call hands that text out again. */
module Command {
  import opened Numbers
  import opened Args

  const MAXBUFSIZE := 1024
  const BUFMAX := 128

  // ----- what a command stands for

  function ToNewline(t: seq<Byte>): (r: seq<Byte>)
    ensures |r| <= |t| && forall i :: 0 <= i < |r| ==> r[i] == t[i] && t[i] != NEWLINE
    ensures |r| < |t| ==> t[|r|] == NEWLINE
  {
    if t == [] || t[0] == NEWLINE then [] else [t[0]] + ToNewline(t[1..])
  }

  function Name(command: seq<Byte>): seq<Byte> {
    var c := SkipBlanks(command);
    c[..WordEnd(c)]
  }

  /** The argument text: from the first character behind the name that is no blank. */
  function Text(command: seq<Byte>): seq<Byte> {
    var c := SkipBlanks(command);
    ToNewline(SkipBlanks(c[WordEnd(c)..]))
  }

  function Blanks(n: nat): (r: seq<Byte>)
    ensures |r| == n && forall i :: 0 <= i < n ==> r[i] == BLANK
  {
    if n == 0 then [] else [BLANK] + Blanks(n - 1)
  }

  /** A command by its parts: blanks, name, blanks, argument text, and what a newline cuts off. */
  function Spelled(i: nat, name: seq<Byte>, j: nat, text: seq<Byte>, tail: seq<Byte>): seq<Byte> {
    Blanks(i) + (name + (Blanks(j) + (text + tail)))
  }

  ghost predicate Parts(name: seq<Byte>, j: nat, text: seq<Byte>, tail: seq<Byte>) {
    && (forall k :: 0 <= k < |name| ==> !Separates(name[k]))
    && (name != [] && j == 0 ==> text == [])
    && OneLine(text) && (text != [] ==> text[0] != BLANK)
    && (tail != [] ==> tail[0] == NEWLINE)
  }

  lemma BlankCons(n: nat, t: seq<Byte>)
    ensures Blanks(n + 1) + t == [BLANK] + (Blanks(n) + t)
  {
  }

  lemma SkipCons(t: seq<Byte>)
    ensures SkipBlanks([BLANK] + t) == SkipBlanks(t)
  {
    assert ([BLANK] + t)[1..] == t;
  }

  /** u is t behind n blanks. */
  lemma {:induction false} SkipLeading(n: nat, t: seq<Byte>, u: seq<Byte>)
    requires t != [] ==> t[0] != BLANK
    requires u == Blanks(n) + t
    ensures SkipBlanks(u) == t
  {
    if n == 0 {
      assert u == t;
    } else {
      var v := Blanks(n - 1) + t;
      SkipLeading(n - 1, t, v);
      BlankCons(n - 1, t);
      assert u == [BLANK] + v;
      SkipCons(v);
    }
  }

  lemma {:induction false} ToNewlineOf(text: seq<Byte>, tail: seq<Byte>)
    requires OneLine(text) && (tail != [] ==> tail[0] == NEWLINE)
    ensures ToNewline(text + tail) == text
  {
    if text == [] {
      assert text + tail == tail;
    } else {
      assert (text + tail)[1..] == text[1..] + tail;
      ToNewlineOf(text[1..], tail);
    }
  }

  /** However a command is spaced, its name and its argument text are found again. */
  lemma PartsFound(command: seq<Byte>, i: nat, name: seq<Byte>, j: nat, text: seq<Byte>, tail: seq<Byte>)
    requires name != [] && Parts(name, j, text, tail) && command == Spelled(i, name, j, text, tail)
    ensures Name(command) == name && Text(command) == text
  {
    var line := text + tail;
    var rest := Blanks(j) + line;
    assert rest != [] ==> rest[0] == if j > 0 then BLANK else line[0];
    assert name + rest != [] && (name + rest)[0] == name[0];
    SkipLeading(i, name + rest, command);
    WordEndIs(name, rest);
    assert (name + rest)[..|name|] == name && (name + rest)[|name|..] == rest;
    SkipLeading(j, line, rest);
    ToNewlineOf(text, tail);
  }

  lemma {:induction false} LeadingBlanks(t: seq<Byte>) returns (n: nat)
    ensures t == Blanks(n) + SkipBlanks(t)
  {
    if t == [] || t[0] != BLANK {
      n := 0;
      NoBlank(t);
    } else {
      var rest := t[1..];
      var m := LeadingBlanks(rest);
      n := m + 1;
      var u := SkipBlanks(rest);
      OneMoreBlank(t, rest, m, u);
      assert SkipBlanks(t) == u by {
        SkipCons(rest);
      }
    }
  }

  lemma NoBlank(t: seq<Byte>)
    requires t == [] || t[0] != BLANK
    ensures t == Blanks(0) + t && SkipBlanks(t) == t
  {
  }

  lemma OneMoreBlank(t: seq<Byte>, rest: seq<Byte>, m: nat, u: seq<Byte>)
    requires t != [] && t[0] == BLANK && rest == t[1..] && rest == Blanks(m) + u
    ensures t == Blanks(m + 1) + u && t == [BLANK] + rest
  {
    BlankCons(m, u);
  }

  /** And every command is spelled that way. */
  lemma EveryCommand(command: seq<Byte>) returns (i: nat, j: nat, tail: seq<Byte>)
    ensures command == Spelled(i, Name(command), j, Text(command), tail)
    ensures Parts(Name(command), j, Text(command), tail)
  {
    var c := SkipBlanks(command);
    i := LeadingBlanks(command);
    var name, rest := TakeName(c);
    j := LeadingBlanks(rest);
    var text;
    text, tail := TakeText(SkipBlanks(rest));
    assert rest == Blanks(j) + (text + tail);
    TextNeedsBlank(rest, j, text, tail);
  }

  lemma TextNeedsBlank(rest: seq<Byte>, j: nat, text: seq<Byte>, tail: seq<Byte>)
    requires rest == Blanks(j) + (text + tail) && StopsWord(rest)
    requires OneLine(text) && (text != [] ==> text[0] != BLANK)
    ensures j == 0 ==> text == []
  {
    assert text != [] ==> (Blanks(0) + (text + tail))[0] == text[0];
  }

  lemma TakeName(c: seq<Byte>) returns (name: seq<Byte>, rest: seq<Byte>)
    ensures name == c[..WordEnd(c)] && rest == c[WordEnd(c)..] && c == name + rest
    ensures forall k :: 0 <= k < |name| ==> !Separates(name[k])
    ensures StopsWord(rest)
  {
    name, rest := c[..WordEnd(c)], c[WordEnd(c)..];
  }

  lemma TakeText(line: seq<Byte>) returns (text: seq<Byte>, tail: seq<Byte>)
    ensures text == ToNewline(line) && line == text + tail
    ensures tail != [] ==> tail[0] == NEWLINE
    ensures text != [] ==> text[0] == line[0]
  {
    text, tail := ToNewline(line), line[|ToNewline(line)|..];
  }

  // ----- against the emulated getargs

  /** Every blank is followed by another character that is none. */
  ghost predicate NoGaps(t: seq<Byte>) {
    forall i :: 0 <= i < |t| && t[i] == BLANK ==> i + 1 < |t| && t[i + 1] != BLANK
  }

  lemma {:induction false} CollapsedShorter(t: seq<Byte>, begun: bool)
    ensures |Collapsed(t, begun)| <= |t|
  {
    if t != [] {
      CollapsedShorter(t[1..], true);
      CollapsedShorter(t[1..], begun);
    }
  }

  lemma NoGapsTail(t: seq<Byte>)
    requires t != []
    ensures NoGaps(t) <==> NoGaps(t[1..]) && (t[0] == BLANK ==> |t| > 1 && t[1] != BLANK)
  {
    var r := t[1..];
    assert forall i :: 0 <= i < |r| ==> r[i] == t[i + 1];
    if NoGaps(r) && (t[0] == BLANK ==> |t| > 1 && t[1] != BLANK) {
      forall i | 0 <= i < |t| && t[i] == BLANK
        ensures i + 1 < |t| && t[i + 1] != BLANK
      {
        if i > 0 {
          assert r[i - 1] == BLANK;
        }
      }
    }
  }

  lemma {:induction false} CollapsedSameIff(t: seq<Byte>, begun: bool)
    requires begun || t == [] || t[0] != BLANK
    ensures Collapsed(t, begun) == t <==> NoGaps(t)
  {
    if t != [] {
      var r := t[1..];
      NoGapsTail(t);
      assert t == [t[0]] + r;
      if t[0] != BLANK || (|t| > 1 && t[1] != BLANK) {
        CollapsedSameIff(r, true);
        assert Collapsed(t, begun) == [t[0]] + Collapsed(r, true);
        assert ([t[0]] + Collapsed(r, true))[1..] == Collapsed(r, true);
      } else {
        CollapsedShorter(r, begun);
      }
    }
  }

  lemma SkipKeepsLine(rest: seq<Byte>)
    requires OneLine(rest)
    ensures OneLine(SkipBlanks(rest)) && ToNewline(SkipBlanks(rest)) == SkipBlanks(rest)
  {
    var t := SkipBlanks(rest);
    SkippedPart(rest);
    EndOfLine(rest, t, |rest| - |t|);
    assert t + [] == t;
    ToNewlineOf(t, []);
  }

  lemma LineText(line: seq<Byte>, rest: seq<Byte>)
    requires OneLine(line) && line != [] && line[0] != BLANK && rest == line[WordEnd(line)..]
    ensures Text(line) == SkipBlanks(rest) && OneLine(Text(line))
  {
    EndOfLine(line, rest, WordEnd(line));
    SkipKeepsLine(rest);
    assert SkipBlanks(line) == line;
  }

  lemma LineArguments(line: seq<Byte>, rest: seq<Byte>)
    requires OneLine(line) && rest == line[WordEnd(line)..]
    ensures Operands(Argv(line)) == Arguments(SkipBlanks(rest))
  {
    var tail := After(line, WordEnd(line));
    assert Operands(Argv(line)) == Arguments(tail);
    assert Arguments(tail) == Arguments(rest) by {
      if rest != [] {
        assert rest[0] == line[WordEnd(line)];
        assert rest[1..] == tail;
        BlankFirst(rest);
      }
    }
    SkipKeepsArguments(rest);
  }

  /** Some word follows blanks at the very start, which only the kernel skips. */
  predicate StartsBlank(command: seq<Byte>) {
    command != [] && command[0] == BLANK && SkipBlanks(ToNewline(command)) != []
  }

  /** The first newline and all behind it; nothing without one. */
  function Beyond(command: seq<Byte>): seq<Byte> { command[|ToNewline(command)|..] }

  /** The first newline ends a word (or stands first), and the next line has a word: only
      the emulator goes on. */
  predicate RunsOn(command: seq<Byte>) {
    var line, more := ToNewline(command), Beyond(command);
    && more != [] && (line == [] || line[|line| - 1] != BLANK)
    && var next := SkipBlanks(more[1..]); next != [] && next[0] != NEWLINE
  }

  lemma NoWordIff(t: seq<Byte>)
    ensures Arguments(t) == [] <==> SkipBlanks(t) == [] || SkipBlanks(t)[0] == NEWLINE
  {
  }

  function OperandsBeyond(line: seq<Byte>, more: seq<Byte>): seq<Word>
    requires more != []
  {
    if line == [] then Arguments(more[1..]) else Across(line, more)
  }

  /** A command is its first line and what is beyond. */
  lemma FirstLine(command: seq<Byte>)
    ensures command == ToNewline(command) + Beyond(command)
    ensures Beyond(command) != [] ==> Breaks(Beyond(command))
  {
    var n := |ToNewline(command)|;
    assert ToNewline(command) == command[..n];
    assert command == command[..n] + command[n..];
  }

  lemma SpelledTail(i: nat, name: seq<Byte>, j: nat, text: seq<Byte>, tail: seq<Byte>)
    ensures Spelled(i, name, j, text, []) + tail == Spelled(i, name, j, text, tail)
  {
    assert text + [] == text;
    assert (Blanks(j) + text) + tail == Blanks(j) + (text + tail);
    assert (name + (Blanks(j) + text)) + tail == name + (Blanks(j) + (text + tail));
  }

  /** The kernel never looks past the first newline. */
  lemma TextOfLine(line: seq<Byte>, tail: seq<Byte>)
    requires OneLine(line) && (tail != [] ==> tail[0] == NEWLINE)
    ensures Text(line + tail) == Text(line)
  {
    var i, j, none := EveryCommand(line);
    assert none == [] by {
      LastPart(i, Name(line), j, Text(line), none);
    }
    SpelledTail(i, Name(line), j, Text(line), tail);
    if Name(line) != [] {
      PartsFound(line + tail, i, Name(line), j, Text(line), tail);
    } else {
      NoName(line);
      SkipKeepsLine(line);
      BlankLine(line, tail, line + tail);
      NoName(line + tail);
    }
  }

  lemma LastPart(i: nat, name: seq<Byte>, j: nat, text: seq<Byte>, tail: seq<Byte>)
    requires OneLine(Spelled(i, name, j, text, tail)) && (tail != [] ==> tail[0] == NEWLINE)
    ensures tail == []
  {
    var whole := Spelled(i, name, j, text, tail);
    var k := i + |name| + j + |text|;
    assert |whole| == k + |tail| && whole[k..] == tail;
    EndOfLine(whole, tail, k);
  }

  /** A command without a name has no text. */
  lemma NoName(command: seq<Byte>)
    ensures Name(command) == [] ==> Text(command) == []
    ensures Name(command) == [] <==> SkipBlanks(command) == [] || SkipBlanks(command)[0] == NEWLINE
  {
    var c := SkipBlanks(command);
    if WordEnd(c) == 0 {
      assert c[0..] == c && SkipBlanks(c) == c;
    }
  }

  lemma BlankLine(line: seq<Byte>, tail: seq<Byte>, command: seq<Byte>)
    requires SkipBlanks(line) == [] && (tail != [] ==> tail[0] == NEWLINE) && command == line + tail
    ensures Name(command) == []
  {
    var n := LeadingBlanks(line);
    assert line == Blanks(n);
    SkipLeading(n, tail, command);
    NoName(command);
  }

  /** Every word, and those behind a newline that ends one. */
  lemma OperandsAcross(line: seq<Byte>, more: seq<Byte>, command: seq<Byte>)
    requires OneLine(line) && Breaks(more) && command == line + more
    ensures Operands(Argv(command)) == Operands(Argv(line)) + OperandsBeyond(line, more)
  {
    var name, behind := TakeName(line);
    var next := behind + more;
    var tail := if behind == [] then [] else behind[1..];
    assert command == name + next;
    assert Operands(Argv(line)) == Arguments(tail) by {
      ArgvOf(line, name, behind);
    }
    assert Operands(Argv(command)) == Arguments(next[1..]) by {
      ArgvOf(command, name, next);
    }
    TailAcross(line, name, behind, more, next, tail);
  }

  lemma TailAcross(line: seq<Byte>, name: seq<Byte>, behind: seq<Byte>, more: seq<Byte>, next: seq<Byte>,
                   tail: seq<Byte>)
    requires OneLine(line) && Breaks(more) && line == name + behind && next == behind + more
    requires StopsWord(behind) && forall k :: 0 <= k < |name| ==> !Separates(name[k])
    requires tail == if behind == [] then [] else behind[1..]
    ensures Arguments(next[1..]) == Arguments(tail) + OperandsBeyond(line, more)
  {
    if behind == [] {
      assert next == more && line == name;
      NoArguments(tail);
    } else {
      assert next[1..] == tail + more;
      assert line[|line| - 1] == behind[|behind| - 1] && behind[0] == line[|name|];
      EndOfLine(line, tail, |name| + 1);
      ArgumentsAcross(tail, more, next[1..]);
      AcrossSame(line, behind, more);
    }
  }

  lemma ArgvOf(command: seq<Byte>, name: seq<Byte>, rest: seq<Byte>)
    requires command == name + rest && StopsWord(rest) && forall k :: 0 <= k < |name| ==> !Separates(name[k])
    ensures Operands(Argv(command)) == Arguments(if rest == [] then [] else rest[1..])
  {
    WordEndIs(name, rest);
    assert rest != [] ==> After(command, |name|) == rest[1..];
  }

  /** On one line the emulator sees one word more exactly when it starts with blanks. */
  lemma LineOperands(line: seq<Byte>)
    requires OneLine(line)
    ensures StartsBlank(line) ==> |Operands(Argv(line))| == |Arguments(Text(line))| + 1
    ensures !StartsBlank(line) ==> Operands(Argv(line)) == Arguments(Text(line))
  {
    WholeLine(line);
    if line == [] {
      NoArguments([]);
    } else if line[0] != BLANK {
      LineText(line, line[WordEnd(line)..]);
      LineArguments(line, line[WordEnd(line)..]);
    } else {
      BlankStart(line);
    }
  }

  /** Behind leading blanks the emulator has no name, and every word is an operand. */
  lemma BlankOperands(line: seq<Byte>)
    requires line != [] && line[0] == BLANK
    ensures Operands(Argv(line)) == Arguments(SkipBlanks(line))
  {
    assert WordEnd(line) == 0;
    BlankFirst(line);
    SkipKeepsArguments(line);
  }

  /** The kernel has one word fewer in its text: the name. */
  lemma WordStart(c: seq<Byte>)
    requires OneLine(c) && c != [] && c[0] != BLANK
    ensures |Arguments(c)| == |Arguments(Text(c))| + 1
  {
    var name, rest := TakeName(c);
    assert Text(c) == SkipBlanks(rest) by {
      LineText(c, rest);
    }
    assert Operands(Argv(c)) == Arguments(SkipBlanks(rest)) by {
      LineArguments(c, rest);
    }
    FirstWord(c);
  }

  lemma FirstWord(c: seq<Byte>)
    requires OneLine(c) && c != [] && c[0] != BLANK
    ensures |Arguments(c)| == |Operands(Argv(c))| + 1
  {
    assert SkipBlanks(c) == c;
    assert Operands(Argv(c)) == Arguments(After(c, WordEnd(c)));
  }

  lemma SameText(line: seq<Byte>)
    ensures Text(line) == Text(SkipBlanks(line))
  {
    var c := SkipBlanks(line);
    assert SkipBlanks(c) == c;
  }

  lemma BlankStart(line: seq<Byte>)
    requires OneLine(line) && line != [] && line[0] == BLANK
    ensures SkipBlanks(line) == [] ==> Operands(Argv(line)) == Arguments(Text(line))
    ensures SkipBlanks(line) != [] ==> |Operands(Argv(line))| == |Arguments(Text(line))| + 1
  {
    BlankOperands(line);
    SameText(line);
    if SkipBlanks(line) == [] {
      NoName(line);
    } else {
      SkipKeepsLine(line);
      WordStart(SkipBlanks(line));
    }
  }

  /** Both find the same words, for every command, unless it starts with blanks before a
      word or runs on behind its first newline. */
  lemma SameArgumentsIff(command: seq<Byte>)
    ensures Operands(Argv(command)) == Arguments(Text(command)) <==> !StartsBlank(command) && !RunsOn(command)
  {
    var line, more := ToNewline(command), Beyond(command);
    FirstLine(command);
    LineOperands(line);
    WholeLine(line);
    StartsAlike(command, line, more);
    if more != [] {
      TextOfLine(line, more);
      OperandsAcross(line, more, command);
      RunsOnIff(command, line, more);
    } else {
      assert command == line;
    }
  }

  lemma RunsOnIff(command: seq<Byte>, line: seq<Byte>, more: seq<Byte>)
    requires line == ToNewline(command) && more == Beyond(command) != []
    ensures RunsOn(command) <==> OperandsBeyond(line, more) != []
  {
    NoWordIff(more[1..]);
  }

  lemma WholeLine(line: seq<Byte>)
    requires OneLine(line)
    ensures ToNewline(line) == line
  {
    assert line + [] == line;
    ToNewlineOf(line, []);
  }

  lemma StartsAlike(command: seq<Byte>, line: seq<Byte>, more: seq<Byte>)
    requires line == ToNewline(command) && command == line + more
    ensures StartsBlank(command) == StartsBlank(line)
  {
    WholeLine(line);
    assert line != [] ==> command[0] == line[0];
    assert line == [] ==> SkipBlanks(line) == [];
  }

  /** The kernel's getargs and the emulated one hand out the same text exactly when both
      find the same words and every blank in the text is followed by another character. */
  lemma EmulatorAgreesIff(command: seq<Byte>)
    ensures Join(Operands(Argv(command))) == Text(command) <==>
            !StartsBlank(command) && !RunsOn(command) && NoGaps(Text(command))
  {
    var e, t := Operands(Argv(command)), Text(command);
    SameArgumentsIff(command);
    assert AreWords(e) by {
      ArgumentsAreWords(After(command, WordEnd(command)));
      assert e == Arguments(After(command, WordEnd(command)));
    }
    SplitUndoesJoin(e);
    assert Join(Arguments(t)) == Collapsed(t, false) by {
      JoinOfSplit(t);
    }
    TextStart(command);
    CollapsedSameIff(t, false);
  }

  lemma TextStart(command: seq<Byte>)
    ensures Text(command) != [] ==> Text(command)[0] != BLANK
  {
    var c := SkipBlanks(command);
    var text, tail := TakeText(SkipBlanks(c[WordEnd(c)..]));
  }

  // ----- execute_call's parsing

  function CharAt(s: seq<Byte>, i: nat): Byte { if i < |s| then s[i] else 0 }

  method Zero(buf: array<Byte>)
    modifies buf
    ensures forall k :: 0 <= k < buf.Length ==> buf[k] == 0
  {
    var i := 0;
    while i < buf.Length
      invariant 0 <= i <= buf.Length && forall k :: 0 <= k < i ==> buf[k] == 0
    {
      buf[i] := 0;
      i := i + 1;
    }
  }

  lemma SkipOne(command: seq<Byte>, k: nat)
    requires k < |command| && command[k] == BLANK
    ensures SkipBlanks(command[k..]) == SkipBlanks(command[k + 1..])
  {
    assert command[k..] == [BLANK] + command[k + 1..];
    SkipCons(command[k + 1..]);
  }

  method SkipTo(command: seq<Byte>, from: nat) returns (k: nat)
    requires from <= |command|
    ensures from <= k <= |command| && command[k..] == SkipBlanks(command[from..])
  {
    k := from;
    while CharAt(command, k) == BLANK
      invariant from <= k <= |command| && SkipBlanks(command[k..]) == SkipBlanks(command[from..])
      decreases |command| - k
    {
      SkipOne(command, k);
      k := k + 1;
    }
    assert SkipBlanks(command[k..]) == command[k..];
  }

  /** Copies the word at `from` into a buffer of zeros. */
  method CopyWord(command: seq<Byte>, from: nat, cmd: array<Byte>) returns (scan: nat)
    requires from <= |command| < cmd.Length && 0 !in command
    requires forall k :: 0 <= k < cmd.Length ==> cmd[k] == 0
    modifies cmd
    ensures scan == from + WordEnd(command[from..]) && IsString(cmd[..], 0, command[from..scan])
  {
    ghost var t := command[from..];
    var index := 0;
    scan := from;
    while CharAt(command, scan) != BLANK && CharAt(command, scan) != 0 && CharAt(command, scan) != NEWLINE
      invariant scan == from + index <= |command|
      invariant forall i :: 0 <= i < index ==> !Separates(t[i]) && cmd[i] == t[i]
      invariant forall k :: index <= k < cmd.Length ==> cmd[k] == 0
      decreases |command| - scan
    {
      cmd[index] := command[scan];
      index := index + 1;
      scan := scan + 1;
    }
    assert scan < |command| ==> command[scan] in command && t[index] == command[scan];
    assert t == t[..index] + t[index..];
    WordEndIs(t[..index], t[index..]);
    Copied(cmd[..], t, index);
    assert command[from..scan] == t[..index];
  }

  lemma Copied(buf: seq<Byte>, t: seq<Byte>, n: nat)
    requires n <= |t| && n < |buf| && 0 !in t
    requires forall i :: 0 <= i < n ==> buf[i] == t[i]
    requires buf[n] == 0
    ensures IsString(buf, 0, t[..n])
  {
  }

  /** Copies the rest of the line into a buffer of zeros. */
  method CopyLine(command: seq<Byte>, from: nat, arg: array<Byte>)
    requires from <= |command| < arg.Length && 0 !in command
    requires forall k :: 0 <= k < arg.Length ==> arg[k] == 0
    modifies arg
    ensures IsString(arg[..], 0, ToNewline(command[from..]))
  {
    ghost var t := command[from..];
    var index := 0;
    while CharAt(command, from + index) != 0 && CharAt(command, from + index) != NEWLINE
      invariant 0 <= index <= |t|
      invariant forall i :: 0 <= i < index ==> t[i] != NEWLINE && arg[i] == t[i]
      invariant forall k :: index <= k < arg.Length ==> arg[k] == 0
      decreases |t| - index
    {
      arg[index] := command[from + index];
      index := index + 1;
    }
    assert index < |t| ==> t[index] in command && t[index] == NEWLINE;
    assert t == t[..index] + t[index..];
    ToNewlineOf(t[..index], t[index..]);
    Copied(arg[..], t, index);
  }

  /** A command over 1023 characters is refused; of any other the name and the argument text
      are stored, the text also in the control block, whose field of 128 bytes starts at
      `stored`. The byte behind that field, terminal_on, is left alone exactly as long as
      the text and its NUL fit. */
  method ParseCall(command: seq<Byte>, cmd: array<Byte>, arg: array<Byte>, stored: array<Byte>) returns (ok: bool)
    requires cmd.Length == arg.Length == MAXBUFSIZE && stored.Length > MAX_COMMAND
    requires cmd != arg && arg != stored && cmd != stored
    requires 0 !in command
    modifies cmd, arg, stored
    ensures ok <==> |command| <= MAX_COMMAND
    ensures ok ==> IsString(cmd[..], 0, Name(command)) && IsString(stored[..], 0, Text(command))
    ensures ok ==> stored[BUFMAX] == Behind(Text(command), old(stored[BUFMAX]))
    ensures !ok ==> stored[..] == old(stored[..])
  {
    if MAX_COMMAND < |command| {
      return false;
    }
    ghost var c, rest := SkipBlanks(command), SkipBlanks(command)[WordEnd(SkipBlanks(command))..];
    assert command[0..] == command;
    var from := SkipTo(command, 0);
    Zero(cmd);
    var scan := CopyWord(command, from, cmd);
    Within(command, from, c, scan);
    Zero(arg);
    scan := SkipTo(command, scan);
    CopyLine(command, scan, arg);
    StoreText(arg, stored, Text(command));
    return true;
  }

  /** The text or its NUL reaches the byte behind the control block's field. */
  predicate Spills(text: seq<Byte>) { |text| >= BUFMAX }

  /** What that byte, which held `was`, holds then. */
  function Behind(text: seq<Byte>, was: Byte): Byte {
    if Spills(text) then CharAt(text, BUFMAX) else was
  }

  /** A text of 128 characters is enough: its NUL then replaces terminal_on. */
  lemma SpillExample(command: seq<Byte>, text: seq<Byte>)
    requires |text| == BUFMAX && OneLine(text) && text[0] != BLANK && command == Spelled(0, [97], 1, text, [])
    ensures |command| <= MAX_COMMAND && Text(command) == text && forall was: Byte :: Behind(text, was) == 0
  {
    PartsFound(command, 0, [97], 1, text, []);
  }

  lemma Within(command: seq<Byte>, from: nat, c: seq<Byte>, scan: nat)
    requires from <= scan <= |command| && c == command[from..]
    ensures command[from..scan] == c[..scan - from] && command[scan..] == c[scan - from..]
  {
  }

  method StoreText(arg: array<Byte>, stored: array<Byte>, ghost text: seq<Byte>)
    requires arg != stored && IsString(arg[..], 0, text) && |text| < stored.Length
    modifies stored
    ensures IsString(stored[..], 0, text)
    ensures BUFMAX < stored.Length ==> stored[BUFMAX] == Behind(text, old(stored[BUFMAX]))
  {
    StringAt(arg[..], 0, text);
    var i := 0;
    while arg[i] != 0
      invariant 0 <= i <= |text| && arg[i] == (if i < |text| then text[i] else 0)
      invariant i < |text| ==> text[i] != 0
      invariant forall k :: 0 <= k < i ==> stored[k] == text[k]
      invariant forall k :: i <= k < stored.Length ==> stored[k] == old(stored[k])
      decreases |text| - i
    {
      stored[i] := arg[i];
      i := i + 1;
    }
    stored[i] := 0;
    Copied(stored[..], text, i);
    assert text[..i] == text;
  }

  // ----- getargs_call

  /** Hands out the stored text, cut to nbytes. An empty text and an empty buffer are
      refused; a text that is too long is not, and then comes without its NUL. A negative
      nbytes does not stop the loop: the whole text is copied, without a NUL. */
  method GetArgsCall(stored: array<Byte>, buf: array<Byte>, nbytes: int, ghost text: seq<Byte>) returns (r: int)
    requires IsString(stored[..], 0, text) && stored != buf
    requires if nbytes < 0 then |text| <= buf.Length else nbytes <= buf.Length
    modifies buf
    ensures r == if text != [] && nbytes != 0 then 0 else -1
    ensures 0 <= nbytes && |text| < nbytes ==> IsString(buf[..], 0, text)
    ensures 0 <= nbytes <= |text| ==> buf[..nbytes] == text[..nbytes]
    ensures 0 <= nbytes ==> buf[nbytes..] == old(buf[nbytes..])
    ensures nbytes < 0 ==> buf[..] == text + old(buf[|text|..])
  {
    var i := 0;
    while i < nbytes
      invariant 0 <= i && (i <= nbytes || i == 0)
      invariant forall k :: 0 <= k < i ==> buf[k] == 0
      invariant forall k :: i <= k < buf.Length ==> buf[k] == old(buf[k])
    {
      buf[i] := 0;
      i := i + 1;
    }
    StringAt(stored[..], 0, text);
    var left, at := nbytes, 0;
    while stored[at] != 0 && left != 0
      invariant 0 <= at <= |text| && at + left == nbytes && (0 <= nbytes ==> 0 <= left)
      invariant stored[at] == (if at < |text| then text[at] else 0) && (at < |text| ==> text[at] != 0)
      invariant forall k :: 0 <= k < at ==> buf[k] == text[k]
      invariant forall k :: at <= k < nbytes ==> buf[k] == 0
      invariant forall k :: at <= k < buf.Length && nbytes <= k ==> buf[k] == old(buf[k])
      decreases |text| - at
    {
      buf[at] := stored[at];
      at := at + 1;
      left := left - 1;
    }
    if 0 <= nbytes && |text| < nbytes {
      Copied(buf[..], text, at);
      assert text[..at] == text;
    }
    r := if at == 0 then -1 else 0;
  }
}
