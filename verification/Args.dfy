/** The emulated execute splits a command line into argv in place, and getargs joins argv
    back into one line. */
module Args {
  import opened Numbers

  const BLANK: Byte := 32
  const NEWLINE: Byte := 10
  const DOT_SLASH: seq<Byte> := [46, 47]
  const SLOTS := 1024
  const MAX_COMMAND := 1023
  const NULL := -1

  type Word = seq<Byte>

  // ----- splitting

  predicate Separates(c: Byte) { c == BLANK || c == NEWLINE }

  /** How far a word reaches. */
  function WordEnd(t: seq<Byte>): (k: nat)
    ensures k <= |t| && forall i :: 0 <= i < k ==> !Separates(t[i])
    ensures k < |t| ==> Separates(t[k])
  {
    if t == [] || Separates(t[0]) then 0 else 1 + WordEnd(t[1..])
  }

  function SkipBlanks(t: seq<Byte>): (r: seq<Byte>)
    ensures |r| <= |t|
    ensures r != [] ==> r[0] != BLANK
  {
    if t == [] || t[0] != BLANK then t else SkipBlanks(t[1..])
  }

  lemma {:induction false} SkippedPart(t: seq<Byte>)
    ensures SkipBlanks(t) == t[|t| - |SkipBlanks(t)|..]
  {
    if t != [] && t[0] == BLANK {
      SkippedPart(t[1..]);
    }
  }

  /** What follows a word: nothing, or the text behind its separator. */
  function After(t: seq<Byte>, k: nat): seq<Byte>
    requires k <= |t|
  {
    if k < |t| then t[k + 1..] else []
  }

  /** The arguments in the text behind the program name. */
  function Arguments(t: seq<Byte>): seq<Word>
    decreases |t|
  {
    var r := SkipBlanks(t);
    if r == [] || r[0] == NEWLINE then []
    else [r[..WordEnd(r)]] + Arguments(After(r, WordEnd(r)))
  }

  /** The whole argv of a command. */
  function Argv(command: seq<Byte>): seq<Word> {
    var k := WordEnd(command);
    [DOT_SLASH + command[..k]] + Arguments(After(command, k))
  }

  /** The program's own argument is "./" and the name, the text up to the first blank or
      newline; the others are those of the text behind it. */
  lemma ArgvParts(name: seq<Byte>, c: Byte, t: seq<Byte>)
    requires 32 !in name && 10 !in name && (c == 32 || c == 10)
    ensures Argv(name + [c] + t) == [[46, 47] + name] + Arguments(t)
    ensures Argv(name) == [[46, 47] + name]
  {
    NameEnds(name, [c] + t);
    assert name + [c] + t == name + ([c] + t);
    NameEnds(name, []);
    assert name + [] == name;
    NoArguments([]);
  }

  lemma NameEnds(name: seq<Byte>, rest: seq<Byte>)
    requires 32 !in name && 10 !in name && StopsWord(rest)
    ensures WordEnd(name + rest) == |name| && (name + rest)[..|name|] == name
    ensures After(name + rest, |name|) == if rest == [] then [] else rest[1..]
  {
    assert forall i :: 0 <= i < |name| ==> name[i] in name;
    WordEndIs(name, rest);
  }

  /** Blanks before a word are skipped, and a newline there ends the arguments. */
  lemma BeforeAWord(t: seq<Byte>)
    ensures Arguments([]) == [] && Arguments([10] + t) == [] && Arguments([32] + t) == Arguments(t)
  {
    NoArguments([]);
    NoArguments([10] + t);
    BlankFirst([32] + t);
    assert ([32] + t)[1..] == t;
  }

  /** A word ends at the first blank or newline behind it, or with the text. */
  lemma WordThenRest(w: Word, rest: seq<Byte>)
    requires w != [] && 32 !in w && 10 !in w
    requires rest != [] ==> rest[0] == 32 || rest[0] == 10
    ensures Arguments(w + rest) == [w] + Arguments(if rest == [] then [] else rest[1..])
  {
    assert forall i :: 0 <= i < |w| ==> w[i] in w;
    FirstArgument(w, rest);
  }

  // ----- joining

  function Join(words: seq<Word>): seq<Byte> {
    if words == [] then []
    else if |words| == 1 then words[0]
    else words[0] + [BLANK] + Join(words[1..])
  }

  predicate IsWord(w: Word) { w != [] && forall i :: 0 <= i < |w| ==> !Separates(w[i]) }

  ghost predicate AreWords(words: seq<Word>) { forall i :: 0 <= i < |words| ==> IsWord(words[i]) }

  /** The text with blanks dropped at both ends and runs of them collapsed to one, in one
      pass over its characters; `begun` once a character was kept. */
  function Collapsed(t: seq<Byte>, begun: bool): seq<Byte> {
    if t == [] then []
    else if t[0] != BLANK then [t[0]] + Collapsed(t[1..], true)
    else if begun && |t| > 1 && t[1] != BLANK then [BLANK] + Collapsed(t[1..], begun)
    else Collapsed(t[1..], begun)
  }

  lemma WordsCons(w: Word, words: seq<Word>)
    requires IsWord(w) && AreWords(words)
    ensures AreWords([w] + words)
  {
  }

  lemma {:induction false} ArgumentsAreWords(t: seq<Byte>)
    ensures AreWords(Arguments(t))
    decreases |t|
  {
    var r := SkipBlanks(t);
    if r != [] && r[0] != NEWLINE {
      var k := WordEnd(r);
      ArgumentsAreWords(After(r, k));
      WordsCons(r[..k], Arguments(After(r, k)));
    }
  }

  ghost predicate StopsWord(rest: seq<Byte>) { rest != [] ==> Separates(rest[0]) }

  lemma {:induction false} WordEndIs(w: seq<Byte>, rest: seq<Byte>)
    requires StopsWord(rest) && forall i :: 0 <= i < |w| ==> !Separates(w[i])
    ensures WordEnd(w + rest) == |w|
    decreases |w|
  {
    if w == [] {
      assert w + rest == rest;
    } else {
      assert (w + rest)[1..] == w[1..] + rest;
      WordEndIs(w[1..], rest);
    }
  }

  /** A word in front is the first argument. */
  lemma FirstArgument(w: Word, rest: seq<Byte>)
    requires IsWord(w) && StopsWord(rest)
    ensures Arguments(w + rest) == [w] + Arguments(if rest == [] then [] else rest[1..])
  {
    WordEndIs(w, rest);
    assert (w + rest)[0] == w[0] && !Separates(w[0]);
    assert (w + rest)[..|w|] == w;
    assert After(w + rest, |w|) == if rest == [] then [] else rest[1..];
  }

  /** Text that starts with a word, taken apart. */
  lemma TakeWord(t: seq<Byte>) returns (w: Word, rest: seq<Byte>)
    requires t != [] && !Separates(t[0])
    ensures t == w + rest && IsWord(w) && StopsWord(rest) && |rest| < |t|
  {
    var k := WordEnd(t);
    w, rest := t[..k], t[k..];
  }

  lemma JoinCons(w: Word, words: seq<Word>)
    ensures Join([w] + words) == w + if words == [] then [] else [BLANK] + Join(words)
  {
    assert ([w] + words)[1..] == words;
  }

  /** Splitting the joined line gives the same arguments back. */
  lemma {:induction false} SplitUndoesJoin(words: seq<Word>)
    requires AreWords(words)
    ensures Arguments(Join(words)) == words
  {
    if words != [] {
      var w, others := words[0], words[1..];
      assert words == [w] + others;
      JoinCons(w, others);
      SplitUndoesJoin(others);
      var rest := if others == [] then [] else [BLANK] + Join(others);
      FirstArgument(w, rest);
      assert others != [] ==> rest[1..] == Join(others);
    }
  }

  lemma {:induction false} CollapsedWord(w: Word, rest: seq<Byte>, begun: bool)
    requires forall i :: 0 <= i < |w| ==> w[i] != BLANK
    ensures Collapsed(w + rest, begun) == w + Collapsed(rest, begun || w != [])
    decreases |w|
  {
    if w == [] {
      assert w + rest == rest;
    } else {
      assert (w + rest)[1..] == w[1..] + rest;
      CollapsedWord(w[1..], rest, true);
    }
  }

  ghost predicate OneLine(t: seq<Byte>) { forall i :: 0 <= i < |t| ==> t[i] != NEWLINE }

  /** From a word on, joining the arguments is collapsing the blanks. */
  lemma {:induction false} JoinFromWord(t: seq<Byte>, begun: bool)
    requires OneLine(t) && t != [] && t[0] != BLANK
    ensures Arguments(t) != [] && Join(Arguments(t)) == Collapsed(t, begun)
    decreases |t|, 0
  {
    var w, rest := TakeWord(t);
    assert OneLine(rest) by {
      assert forall i :: 0 <= i < |rest| ==> rest[i] == t[|w| + i];
    }
    FirstArgument(w, rest);
    CollapsedWord(w, rest, begun);
    JoinFromBlank(rest);
    JoinCons(w, Arguments(if rest == [] then [] else rest[1..]));
  }

  lemma {:induction false} JoinFromBlank(t: seq<Byte>)
    requires OneLine(t) && (t != [] ==> t[0] == BLANK)
    ensures var words := Arguments(if t == [] then [] else t[1..]);
      Collapsed(t, true) == if words == [] then [] else [BLANK] + Join(words)
    decreases |t|, 1
  {
    if |t| > 1 {
      var next := t[1..];
      assert OneLine(next);
      if next[0] == BLANK {
        JoinFromBlank(next);
      } else {
        JoinFromWord(next, true);
      }
    }
  }

  /** Joining the arguments of a line without newlines collapses its blanks. */
  lemma {:induction false} JoinOfSplit(t: seq<Byte>)
    requires OneLine(t)
    ensures Join(Arguments(t)) == Collapsed(t, false)
    decreases |t|
  {
    if t != [] && t[0] == BLANK {
      JoinOfSplit(t[1..]);
    } else if t != [] {
      JoinFromWord(t, false);
    }
  }

  lemma BlankFirst(t: seq<Byte>)
    requires t != [] && t[0] == BLANK
    ensures Arguments(t) == Arguments(t[1..])
  {
  }

  lemma NamedArgument(t: seq<Byte>, w: Word, rest: seq<Byte>, tail: seq<Byte>)
    requires IsWord(w) && StopsWord(rest) && t == w + rest
    requires tail == if rest == [] then [] else rest[1..]
    ensures Arguments(t) == [w] + Arguments(tail)
  {
    FirstArgument(w, rest);
  }

  /** The words behind the newline that starts `more` count too, if it ends a word: the loop
      steps past the separator that ends a word, and stops at a newline anywhere else. */
  function Across(line: seq<Byte>, more: seq<Byte>): seq<Word>
    requires more != []
  {
    if line != [] && line[|line| - 1] != BLANK then Arguments(more[1..]) else []
  }

  ghost predicate Breaks(more: seq<Byte>) { more != [] && more[0] == NEWLINE }

  lemma NoArguments(t: seq<Byte>)
    requires t == [] || t[0] == NEWLINE
    ensures Arguments(t) == []
  {
    assert SkipBlanks(t) == t;
  }

  lemma TailOf(t: seq<Byte>, more: seq<Byte>, u: seq<Byte>)
    requires t != [] && u == t + more
    ensures u != [] && u[0] == t[0] && u[1..] == t[1..] + more
    ensures |t| > 1 ==> t[1..][|t| - 2] == t[|t| - 1]
  {
  }

  /** The arguments of u: a line, then a newline and more. */
  lemma {:induction false} ArgumentsAcross(line: seq<Byte>, more: seq<Byte>, u: seq<Byte>)
    requires OneLine(line) && Breaks(more) && u == line + more
    ensures Arguments(u) == Arguments(line) + Across(line, more)
    decreases |line|, 1
  {
    if line == [] {
      assert u == more;
      NoArguments(u);
      NoArguments(line);
    } else if line[0] == BLANK {
      TailOf(line, more, u);
      EndOfLine(line, line[1..], 1);
      BlankFirst(line);
      BlankFirst(u);
      ArgumentsAcross(line[1..], more, u[1..]);
      assert Across(line[1..], more) == Across(line, more);
    } else {
      AcrossAfterWord(line, more, u);
    }
  }

  lemma EndOfLine(line: seq<Byte>, rest: seq<Byte>, k: nat)
    requires OneLine(line) && k <= |line| && rest == line[k..]
    ensures OneLine(rest)
  {
  }

  lemma {:induction false} AcrossAfterWord(line: seq<Byte>, more: seq<Byte>, u: seq<Byte>)
    requires OneLine(line) && Breaks(more) && u == line + more && line != [] && line[0] != BLANK
    ensures Arguments(u) == Arguments(line) + Across(line, more)
    decreases |line|, 0
  {
    var w, behind := TakeWord(line);
    var next, tail, tail' := BehindWord(line, w, behind, more, u);
    assert Arguments(line) == [w] + Arguments(tail) by {
      NamedArgument(line, w, behind, tail);
    }
    assert Arguments(u) == [w] + Arguments(tail') by {
      NamedArgument(u, w, next, tail');
    }
    assert Arguments(tail') == Arguments(tail) + Across(line, more) by {
      if behind == [] {
        NoArguments(tail);
      } else {
        ArgumentsAcross(tail, more, tail');
      }
    }
    Prefixed(Arguments(line), Arguments(u), [w], Arguments(tail), Arguments(tail'), Across(line, more));
  }

  /** What follows the first word and its separator, in the line and in the whole text. */
  lemma BehindWord(line: seq<Byte>, w: Word, behind: seq<Byte>, more: seq<Byte>, u: seq<Byte>)
    returns (next: seq<Byte>, tail: seq<Byte>, tail': seq<Byte>)
    requires line == w + behind && u == line + more && IsWord(w) && OneLine(line) && StopsWord(behind) && Breaks(more)
    ensures u == w + next && StopsWord(next) && next != [] && tail' == next[1..]
    ensures tail == (if behind == [] then [] else behind[1..]) && OneLine(tail) && |tail| < |line|
    ensures behind == [] ==> tail' == more[1..] && Across(line, more) == Arguments(tail')
    ensures behind != [] ==> tail' == tail + more && Across(line, more) == Across(tail, more)
  {
    next := behind + more;
    assert u == w + next;
    if behind == [] {
      assert next == more && line == w;
      tail, tail' := [], more[1..];
    } else {
      tail, tail' := behind[1..], behind[1..] + more;
      BlankBehind(line, w, behind);
      assert next[1..] == tail' && next[0] == behind[0];
      AcrossSame(line, behind, more);
    }
  }

  lemma BlankBehind(line: seq<Byte>, w: Word, behind: seq<Byte>)
    requires line == w + behind && OneLine(line) && StopsWord(behind) && behind != []
    ensures behind[0] == BLANK && behind[|behind| - 1] == line[|line| - 1] && OneLine(behind[1..])
  {
    assert behind == line[|w|..];
    EndOfLine(line, behind, |w|);
    EndOfLine(behind, behind[1..], 1);
  }

  lemma AcrossSame(line: seq<Byte>, behind: seq<Byte>, more: seq<Byte>)
    requires line != [] && behind != [] && more != []
    requires behind[0] == BLANK && behind[|behind| - 1] == line[|line| - 1]
    ensures Across(behind[1..], more) == Across(line, more)
  {
    var tail := behind[1..];
    assert tail != [] ==> tail[|tail| - 1] == behind[|behind| - 1];
  }

  lemma Prefixed(x: seq<Word>, y: seq<Word>, w: seq<Word>, a: seq<Word>, b: seq<Word>, c: seq<Word>)
    requires x == w + a && y == w + b && b == a + c
    ensures y == x + c
  {
  }

  /** A newline at the end of the line, u, changes nothing. */
  lemma FinalNewline(t: seq<Byte>, u: seq<Byte>)
    requires OneLine(t) && u == t + [NEWLINE]
    ensures Arguments(u) == Arguments(t)
  {
    ArgumentsAcross(t, [NEWLINE], u);
    NoArguments([]);
  }

  /** Words take at least two characters each, separator included. */
  lemma {:induction false} FewArguments(t: seq<Byte>)
    ensures 2 * |Arguments(t)| <= |t| + 1
    decreases |t|
  {
    var r := SkipBlanks(t);
    if r != [] && r[0] != NEWLINE {
      FewArguments(After(r, WordEnd(r)));
    }
  }

  // ----- execute's half: argv in place

  /** The strings at the first n positions of args are the words. */
  ghost predicate Holds(buf: seq<Byte>, args: seq<int>, words: seq<Word>) {
    && |words| <= |args|
    && forall k :: 0 <= k < |words| ==> 0 <= args[k] && IsString(buf, args[k], words[k])
  }

  /** The arguments read so far, each a string that ends at `scan` or before. */
  ghost predicate Ready(buf: seq<Byte>, args: seq<int>, words: seq<Word>, scan: nat) {
    Holds(buf, args, words) && forall k :: 0 <= k < |words| ==> args[k] + |words[k]| <= scan
  }

  /** Writing a NUL no earlier than their ends disturbs none of them. */
  lemma ReadyCut(buf: seq<Byte>, args: seq<int>, words: seq<Word>, scan: nat, at: nat)
    requires Ready(buf, args, words, scan) && scan <= at < |buf|
    ensures Ready(buf[at := 0], args, words, scan)
  {
    var cut := buf[at := 0];
    forall k | 0 <= k < |words|
      ensures IsString(cut, args[k], words[k])
    {
      var a, n := args[k], |words[k]|;
      assert cut[a..a + n] == buf[a..a + n];
    }
  }

  lemma ReadyPush(buf: seq<Byte>, args: seq<int>, args': seq<int>, words: seq<Word>, w: Word, at: nat, scan: nat)
    requires Ready(buf, args, words, at) && at + |w| <= scan && IsString(buf, at, w)
    requires |words| < |args| == |args'| && args' == args[|words| := at]
    ensures Ready(buf, args', words + [w], scan)
  {
  }

  /** Cutting a string at k leaves two. */
  lemma CutString(buf: seq<Byte>, at: nat, s: seq<Byte>, k: nat)
    requires IsString(buf, at, s) && k < |s|
    ensures IsString(buf[at + k := 0], at, s[..k]) && IsString(buf[at + k := 0], at + k + 1, s[k + 1..])
  {
    var cut := buf[at + k := 0];
    assert s == s[..k] + s[k..];
    assert cut[at..at + k] == buf[at..at + |s|][..k];
    assert cut[at + k + 1..at + |s|] == buf[at..at + |s|][k + 1..];
  }

  lemma TailString(buf: seq<Byte>, at: nat, s: seq<Byte>, k: nat)
    requires IsString(buf, at, s) && k <= |s|
    ensures IsString(buf, at + k, s[k..])
  {
    assert buf[at + k..at + |s|] == buf[at..at + |s|][k..];
  }

  /** The character at the head of a string; its NUL when it is empty. */
  lemma Head(buf: seq<Byte>, at: nat, s: seq<Byte>)
    requires IsString(buf, at, s)
    ensures buf[at] == if s == [] then 0 else s[0]
    ensures buf[at] == 0 <==> s == []
  {
    StringAt(buf, at, s);
  }

  method SkipBlanksAt(buf: array<Byte>, at: nat, ghost s: seq<Byte>) returns (scan: nat, ghost rest: seq<Byte>)
    requires IsString(buf[..], at, s)
    ensures at <= scan && rest == SkipBlanks(s) && IsString(buf[..], scan, rest)
    ensures scan + |rest| == at + |s|
  {
    scan, rest := at, s;
    Head(buf[..], scan, rest);
    while buf[scan] == BLANK
      invariant at <= scan && IsString(buf[..], scan, rest) && scan + |rest| == at + |s|
      invariant SkipBlanks(rest) == SkipBlanks(s)
      invariant buf[scan] == (if rest == [] then 0 else rest[0])
      decreases |rest|
    {
      TailString(buf[..], scan, rest, 1);
      scan, rest := scan + 1, rest[1..];
      Head(buf[..], scan, rest);
    }
  }

  method WordEndAt(buf: array<Byte>, at: nat, ghost s: seq<Byte>) returns (scan: nat)
    requires IsString(buf[..], at, s)
    ensures scan == at + WordEnd(s)
  {
    scan := at;
    StringAt(buf[..], at, s);
    ghost var k := 0;
    while buf[scan] != 0 && buf[scan] != BLANK && buf[scan] != NEWLINE
      invariant 0 <= k <= |s| && scan == at + k
      invariant k < |s| ==> buf[at + k] == s[k] && s[k] != 0
      invariant forall i :: 0 <= i < k ==> !Separates(s[i])
      decreases |s| - k
    {
      scan := scan + 1;
      k := k + 1;
    }
    assert s == s[..k] + s[k..];
    WordEndIs(s[..k], s[k..]);
  }

  /** Ends the word at `scan` with a NUL unless the text ends there, and steps past it. */
  method EndWord(buf: array<Byte>, at: nat, scan: nat, ghost s: seq<Byte>, ghost args: seq<int>, ghost words: seq<Word>)
    returns (next: nat)
    requires IsString(buf[..], at, s) && scan == at + WordEnd(s)
    requires Ready(buf[..], args, words, at)
    modifies buf
    ensures IsString(buf[..], at, s[..WordEnd(s)]) && IsString(buf[..], next, After(s, WordEnd(s)))
    ensures next == if WordEnd(s) < |s| then scan + 1 else scan
    ensures Ready(buf[..], args, words, at) && buf[..at] == old(buf[..at])
  {
    ghost var k, was := WordEnd(s), buf[..];
    TailString(was, at, s, k);
    Head(was, scan, s[k..]);
    next := scan;
    if buf[scan] != 0 {
      buf[scan] := 0;
      assert buf[..] == was[at + k := 0];
      CutString(was, at, s, k);
      ReadyCut(was, args, words, at, scan);
      next := scan + 1;
    } else {
      assert k == |s| && s[..k] == s && s[k..] == [];
    }
  }

  lemma SkipKeepsArguments(t: seq<Byte>)
    ensures Arguments(SkipBlanks(t)) == Arguments(t)
  {
    var r := SkipBlanks(t);
    assert SkipBlanks(r) == r;
  }

  /** Enters the word at `scan` as the next argument. */
  method TakeArgument(buf: array<Byte>, scan: nat, args: array<int>, count: nat, ghost rest: seq<Byte>,
                      ghost words: seq<Word>)
    returns (next: nat)
    requires IsString(buf[..], scan, rest) && count == |words| < args.Length
    requires Ready(buf[..], args[..], words, scan)
    modifies buf, args
    ensures IsString(buf[..], next, After(rest, WordEnd(rest)))
    ensures Ready(buf[..], args[..], words + [rest[..WordEnd(rest)]], next)
  {
    ghost var args0 := args[..];
    args[count] := scan;
    var end := WordEndAt(buf, scan, rest);
    next := EndWord(buf, scan, end, rest, args0, words);
    ReadyPush(buf[..], args0, args[..], words, rest[..WordEnd(rest)], scan, next);
  }

  /** Between two arguments: `words` are entered, `rest` is the text at `scan`. */
  ghost predicate Parsing(buf: seq<Byte>, args: seq<int>, scan: nat, rest: seq<Byte>, words: seq<Word>,
                          goal: seq<Word>) {
    && IsString(buf, scan, rest) && Ready(buf, args, words, scan)
    && words + Arguments(rest) == goal
  }

  lemma ParsingSkips(buf: seq<Byte>, args: seq<int>, scan: nat, rest: seq<Byte>, words: seq<Word>,
                     goal: seq<Word>, next: nat)
    requires Parsing(buf, args, scan, rest, words, goal) && scan <= next
    requires IsString(buf, next, SkipBlanks(rest))
    ensures Parsing(buf, args, next, SkipBlanks(rest), words, goal)
  {
    SkipKeepsArguments(rest);
  }

  /** The end of the text is marked and nothing is left to enter. */
  lemma ParsingEnds(buf: seq<Byte>, args: seq<int>, scan: nat, rest: seq<Byte>, words: seq<Word>, goal: seq<Word>)
    requires Parsing(buf, args, scan, rest, words, goal) && scan < |buf|
    requires rest == [] || rest[0] == NEWLINE
    ensures words == goal && Holds(buf[scan := 0], args, goal)
  {
    assert Arguments(rest) == [] by {
      assert SkipBlanks(rest) == rest;
    }
    ReadyCut(buf, args, words, scan, scan);
  }

  lemma ParsingFits(buf: seq<Byte>, args: seq<int>, scan: nat, rest: seq<Byte>, words: seq<Word>, goal: seq<Word>)
    requires Parsing(buf, args, scan, rest, words, goal) && rest != [] && !Separates(rest[0])
    ensures |words| < |goal| && (words + [rest[..WordEnd(rest)]]) + Arguments(After(rest, WordEnd(rest))) == goal
    ensures WordEnd(rest) > 0
  {
    var k := WordEnd(rest);
    assert SkipBlanks(rest) == rest;
    assert Arguments(rest) == [rest[..k]] + Arguments(After(rest, k));
    Regroup(words, rest[..k], Arguments(After(rest, k)));
  }

  /** One turn of the loop: the word at `scan` is entered. */
  method ParseNext(buf: array<Byte>, scan: nat, args: array<int>, count: nat,
                   ghost rest: seq<Byte>, ghost words: seq<Word>, ghost goal: seq<Word>)
    returns (next: nat, ghost rest': seq<Byte>, ghost words': seq<Word>)
    requires Parsing(buf[..], args[..], scan, rest, words, goal) && count == |words|
    requires rest != [] && !Separates(rest[0]) && |goal| < args.Length
    modifies buf, args
    ensures Parsing(buf[..], args[..], next, rest', words', goal)
    ensures |rest'| < |rest| && |words'| == count + 1
  {
    ParsingFits(buf[..], args[..], scan, rest, words, goal);
    next := TakeArgument(buf, scan, args, count, rest, words);
    words', rest' := words + [rest[..WordEnd(rest)]], After(rest, WordEnd(rest));
  }

  /** Moves over blanks, and sees the character the next word or the end starts with. */
  method ParseBlanks(buf: array<Byte>, at: nat, args: array<int>,
                     ghost rest: seq<Byte>, ghost words: seq<Word>, ghost goal: seq<Word>)
    returns (scan: nat, ghost next: seq<Byte>)
    requires Parsing(buf[..], args[..], at, rest, words, goal)
    ensures Parsing(buf[..], args[..], scan, next, words, goal) && |next| <= |rest|
    ensures scan < buf.Length && buf[scan] == (if next == [] then 0 else next[0])
    ensures next != [] ==> next[0] != BLANK && next[0] != 0
  {
    scan, next := SkipBlanksAt(buf, at, rest);
    ParsingSkips(buf[..], args[..], at, rest, words, goal, scan);
    Head(buf[..], scan, next);
  }

  /** Marks the end of the text. */
  method ParseEnd(buf: array<Byte>, scan: nat, args: array<int>,
                  ghost rest: seq<Byte>, ghost words: seq<Word>, ghost goal: seq<Word>)
    requires Parsing(buf[..], args[..], scan, rest, words, goal) && scan < buf.Length
    requires rest == [] || rest[0] == NEWLINE
    modifies buf
    ensures words == goal && Holds(buf[..], args[..], goal)
  {
    ghost var cut, slots := buf[..][scan := 0], args[..];
    assert words == goal && Holds(cut, slots, goal) by {
      ParsingEnds(buf[..], slots, scan, rest, words, goal);
    }
    PutByte(buf, scan, 0);
    assert buf[..] == cut && args[..] == slots;
  }

  method PutByte(buf: array<Byte>, at: nat, c: Byte)
    requires at < buf.Length
    modifies buf
    ensures buf[..] == old(buf[..])[at := c]
  {
    buf[at] := c;
  }

  /** The parsing loop: every argument left in the text, entered in args from slot n on. */
  method ParseArguments(buf: array<Byte>, from: nat, args: array<int>, n: nat,
                        ghost t: seq<Byte>, ghost done: seq<Word>, ghost goal: seq<Word>)
    returns (count: nat)
    requires Parsing(buf[..], args[..], from, t, done, goal) && n == |done| && |goal| < args.Length
    modifies buf, args
    ensures count == |goal| && Holds(buf[..], args[..], goal)
  {
    var scan := from;
    count := n;
    ghost var rest, words := t, done;
    while true
      invariant Parsing(buf[..], args[..], scan, rest, words, goal) && count == |words|
      decreases |rest|
    {
      scan, rest := ParseBlanks(buf, scan, args, rest, words, goal);
      if buf[scan] == 0 || buf[scan] == NEWLINE {
        ParseEnd(buf, scan, args, rest, words, goal);
        return;
      }
      scan, rest, words := ParseNext(buf, scan, args, count, rest, words, goal);
      count := count + 1;
    }
  }

  lemma Regroup(a: seq<Word>, w: Word, b: seq<Word>)
    ensures (a + [w]) + b == a + ([w] + b)
  {
  }

  /** Copies "./" and the command, NUL included, into the buffer. */
  method CopyCommand(command: seq<Byte>, buf: array<Byte>)
    requires buf.Length == MAX_COMMAND + 3 && |command| <= MAX_COMMAND && 0 !in command
    modifies buf
    ensures IsString(buf[..], 0, DOT_SLASH + command)
  {
    buf[0], buf[1] := 46, 47;
    var i := 0;
    while i < |command|
      invariant 0 <= i <= |command| && buf[..2 + i] == DOT_SLASH + command[..i]
    {
      buf[2 + i] := command[i];
      i := i + 1;
    }
    buf[2 + i] := 0;
    assert command[..i] == command && buf[..][0..2 + i] == buf[..2 + i];
  }

  /** ece391_execute's argument vector: n strings in buf, at the positions in args, that
      are the command's argv, with NULL behind them; a command over 1023 characters is refused. */
  method SplitCommand(command: seq<Byte>) returns (ok: bool, buf: array<Byte>, args: array<int>, n: nat)
    requires 0 !in command
    ensures ok <==> |command| <= MAX_COMMAND
    ensures ok ==> args.Length == SLOTS && n == |Argv(command)| < SLOTS
    ensures ok ==> Holds(buf[..], args[..], Argv(command)) && args[n] == NULL
  {
    buf := new Byte[MAX_COMMAND + 3](_ => 0);
    args := new int[SLOTS](_ => 0);
    n := 0;
    if MAX_COMMAND < |command| {
      return false, buf, args, n;
    }
    CopyCommand(command, buf);
    n := ParseCommand(buf, args, command);
    return true, buf, args, n;
  }

  method ParseCommand(buf: array<Byte>, args: array<int>, ghost command: seq<Byte>) returns (n: nat)
    requires IsString(buf[..], 0, DOT_SLASH + command) && args.Length == SLOTS && |command| <= MAX_COMMAND
    modifies buf, args
    ensures n == |Argv(command)| < SLOTS && Holds(buf[..], args[..], Argv(command)) && args[n] == NULL
  {
    ghost var k, goal := WordEnd(command), Argv(command);
    ghost var name, rest := [DOT_SLASH + command[..k]], After(command, k);
    var next, more := TakeName(buf, args, command);
    FewArguments(rest);
    n := 1;
    if more {
      n := ParseArguments(buf, next, args, n, rest, name, goal);
    } else {
      assert Arguments(rest) == [];
    }
    EndArguments(buf, args, n, goal);
  }

  method EndArguments(buf: array<Byte>, args: array<int>, n: nat, ghost goal: seq<Word>)
    requires Holds(buf[..], args[..], goal) && n == |goal| < args.Length
    modifies args
    ensures Holds(buf[..], args[..], goal) && args[n] == NULL
  {
    ghost var entered, text := args[..], buf[..];
    args[n] := NULL;
    assert buf[..] == text;
    HoldsNull(text, entered, args[..], goal);
  }

  lemma HoldsNull(buf: seq<Byte>, args: seq<int>, args': seq<int>, words: seq<Word>)
    requires Holds(buf, args, words) && |words| < |args| && args' == args[|words| := NULL]
    ensures Holds(buf, args', words)
  {
  }

  /** Enters the program name; `more` if its end was not the end of the command. */
  method TakeName(buf: array<Byte>, args: array<int>, ghost command: seq<Byte>) returns (next: nat, more: bool)
    requires IsString(buf[..], 0, DOT_SLASH + command) && args.Length == SLOTS
    modifies buf, args
    ensures Parsing(buf[..], args[..], next, After(command, WordEnd(command)),
                    [DOT_SLASH + command[..WordEnd(command)]], Argv(command))
    ensures !more ==> After(command, WordEnd(command)) == []
  {
    ghost var k, was := WordEnd(command), buf[..];
    CommandString(buf[..], command);
    var end := WordEndAt(buf, 2, command);
    ghost var args0 := args[..];
    next := EndWord(buf, 2, end, command, args0, []);
    more := next != end;
    args[0] := 0;
    assert IsString(buf[..], 0, DOT_SLASH + command[..k]) by {
      assert buf[..][..2] == buf[..2] && was[..2] == old(buf[..2]);
      NameString(was, buf[..], command, k);
    }
  }

  /** The program name with its prefix, once its end is marked. */
  lemma NameString(was: seq<Byte>, buf: seq<Byte>, command: seq<Byte>, k: nat)
    requires IsString(was, 0, DOT_SLASH + command) && k <= |command| && |buf| == |was|
    requires IsString(buf, 2, command[..k]) && buf[..2] == was[..2]
    ensures IsString(buf, 0, DOT_SLASH + command[..k])
  {
    var s, t := DOT_SLASH + command, DOT_SLASH + command[..k];
    assert was[0..|s|][..2] == was[..2] && s[..2] == DOT_SLASH;
    assert buf[0..|t|] == buf[..2] + buf[2..2 + k];
  }

  lemma CommandString(buf: seq<Byte>, command: seq<Byte>)
    requires IsString(buf, 0, DOT_SLASH + command)
    ensures IsString(buf, 2, command)
  {
    TailString(buf, 0, DOT_SLASH + command, 2);
    assert (DOT_SLASH + command)[2..] == command;
  }

  // ----- getargs' half: argv back to one line

  /** The words of argv behind the program name. */
  function Operands(argv: seq<Word>): seq<Word> { if argv == [] then [] else argv[1..] }

  /** The command in its plainest form: the name, then the operands as getargs joins them. */
  function Plain(command: seq<Byte>): seq<Byte> {
    command[..WordEnd(command)] + [BLANK] + Join(Operands(Argv(command)))
  }

  lemma PlainParts(name: seq<Byte>, joined: seq<Byte>, line: seq<Byte>)
    requires line == name + [BLANK] + joined && forall i :: 0 <= i < |name| ==> !Separates(name[i])
    ensures WordEnd(line) == |name| && line[..|name|] == name && After(line, |name|) == joined
  {
    assert line == name + ([BLANK] + joined);
    WordEndIs(name, [BLANK] + joined);
  }

  /** Joining and splitting again gives the same argv, whatever the command's spacing. */
  lemma SplitAgain(command: seq<Byte>)
    ensures Argv(Plain(command)) == Argv(command)
  {
    var k := WordEnd(command);
    var words := Arguments(After(command, k));
    assert Operands(Argv(command)) == words;
    assert Arguments(Join(words)) == words by {
      ArgumentsAreWords(After(command, k));
      SplitUndoesJoin(words);
    }
    PlainParts(command[..k], Join(words), Plain(command));
  }

  ghost predicate NoNuls(argv: seq<Word>) { forall k :: 0 <= k < |argv| ==> 0 !in argv[k] }

  /** Copies the word and its NUL. */
  method CopyString(buf: array<Byte>, at: nat, w: Word)
    requires at + |w| < buf.Length
    modifies buf
    ensures buf[..at + |w|] == old(buf[..at]) + w && buf[at + |w|] == 0
    ensures buf[at + |w| + 1..] == old(buf[at + |w| + 1..])
  {
    var i := 0;
    while i < |w|
      invariant 0 <= i <= |w| && buf[..at + i] == old(buf[..at]) + w[..i]
      invariant buf[at + |w| + 1..] == old(buf[at + |w| + 1..])
    {
      buf[at + i] := w[i];
      i := i + 1;
    }
    assert w[..i] == w;
    buf[at + i] := 0;
  }

  /** `line` is written and `left` are still to be joined behind it. */
  ghost predicate Joining(line: seq<Byte>, left: seq<Word>, goal: seq<Byte>) {
    left != [] && line + Join(left) == goal
  }

  lemma JoinsWord(line: seq<Byte>, left: seq<Word>, goal: seq<Byte>)
    requires Joining(line, left, goal)
    ensures |line| + |left[0]| <= |goal|
    ensures |left| == 1 ==> line + left[0] == goal
    ensures |left| > 1 ==> Joining(line + left[0] + [BLANK], left[1..], goal)
    ensures |left| > 1 ==> |line| + |left[0]| + 1 <= |goal|
  {
    var w, others := left[0], left[1..];
    assert left == [w] + others;
    JoinCons(w, others);
    assert |left| > 1 ==> line + (w + ([BLANK] + Join(others))) == (line + w + [BLANK]) + Join(others);
  }

  lemma {:induction false} JoinHasNoNul(words: seq<Word>)
    requires NoNuls(words)
    ensures 0 !in Join(words)
  {
    if words != [] {
      JoinHasNoNul(words[1..]);
    }
  }

  /** At the head of the loop: the operands before idx are at the front of the buffer, as
      the line to be joined starts. */
  ghost predicate Joined(buf: seq<Byte>, at: int, argv: seq<Word>, idx: nat, goal: seq<Byte>) {
    && 0 <= at <= |buf|
    && if idx < |argv| then Joining(buf[..at], argv[idx..], goal) else buf[..at] == goal
  }

  /** The operand at idx, entered; `more` if another follows. */
  lemma JoinedNext(argv: seq<Word>, idx: nat, line: seq<Byte>, goal: seq<Byte>, more: seq<Byte>)
    requires idx < |argv| && Joining(line, argv[idx..], goal)
    requires more == line + argv[idx]
    ensures |more| <= |goal|
    ensures idx + 1 >= |argv| ==> more == goal
    ensures idx + 1 < |argv| ==> Joining(more + [BLANK], argv[idx + 1..], goal) && |more| < |goal|
  {
    JoinsWord(line, argv[idx..], goal);
    assert argv[idx..][1..] == argv[idx + 1..];
  }

  lemma FinalNul(buf: seq<Byte>, line: seq<Byte>)
    requires |line| < |buf| && buf[..|line|] == line && 0 !in line
    ensures IsString(buf[|line| := 0], 0, line)
  {
    assert buf[|line| := 0][0..|line|] == buf[..|line|];
  }

  // ----- the NUL behind the buffer

  /** The first k words, joined by single blanks, are exactly n long. */
  ghost predicate EndOf(words: seq<Word>, k: nat, n: int) { 1 <= k <= |words| && |Join(words[..k])| == n }

  /** Some first operands, joined, are exactly nbytes long. */
  ghost predicate Overruns(argv: seq<Word>, nbytes: int) { exists k :: EndOf(Operands(argv), k, nbytes) }

  /** One of the words, joined to those before it, ends at n. */
  predicate EndsAt(words: seq<Word>, n: int) {
    words != [] && (|words[0]| == n || EndsAt(words[1..], n - |words[0]| - 1))
  }

  lemma JoinLength(w: Word, words: seq<Word>)
    ensures |Join([w] + words)| == |w| + if words == [] then 0 else 1 + |Join(words)|
  {
    JoinCons(w, words);
  }

  /** Where the k-th word ends, seen from the second word on. */
  lemma EndOfTail(words: seq<Word>, k: nat, n: int)
    requires 2 <= k <= |words|
    ensures EndOf(words, k, n) <==> EndOf(words[1..], k - 1, n - |words[0]| - 1)
  {
    assert words[..k] == [words[0]] + words[1..][..k - 1];
    JoinLength(words[0], words[1..][..k - 1]);
  }

  lemma FirstEnd(words: seq<Word>, n: int)
    requires words != []
    ensures EndOf(words, 1, n) <==> |words[0]| == n
  {
    assert words[..1] == [words[0]];
  }

  lemma {:induction false} EndsAtIff(words: seq<Word>, n: int)
    ensures EndsAt(words, n) <==> exists k :: EndOf(words, k, n)
  {
    if words != [] {
      var m := n - |words[0]| - 1;
      FirstEnd(words, n);
      EndsAtIff(words[1..], m);
      if k: nat :| EndOf(words[1..], k, m) {
        EndOfTail(words, k + 1, n);
      }
      if k: nat :| EndOf(words, k, n) {
        if k > 1 {
          EndOfTail(words, k, n);
          assert EndOf(words[1..], k - 1, m);
        }
      }
    }
  }

  lemma {:induction false} EndsWithin(words: seq<Word>, n: int)
    requires EndsAt(words, n)
    ensures 0 <= n <= |Join(words)|
  {
    assert words == [words[0]] + words[1..];
    JoinLength(words[0], words[1..]);
    if |words[0]| != n {
      EndsWithin(words[1..], n - |words[0]| - 1);
    }
  }

  /** A call that writes behind its buffer always reports failure. */
  lemma OverrunFails(argv: seq<Word>, nbytes: int)
    requires Overruns(argv, nbytes)
    ensures 0 <= nbytes <= |Join(Operands(argv))|
  {
    EndsAtIff(Operands(argv), nbytes);
    EndsWithin(Operands(argv), nbytes);
  }

  /** One operand of two characters and a buffer of two. */
  lemma OverrunExample()
    ensures Overruns([[46], [97, 98]], 2)
  {
    var words: seq<Word> := [[97, 98]];
    assert Operands([[46], [97, 98]]) == words;
    FirstEnd(words, 2);
  }

  /** Copying the operand at idx into what room is left. */
  lemma EndsStep(argv: seq<Word>, idx: nat, room: int)
    requires idx < |argv|
    ensures var ends, len := EndsAt(argv[idx..], room), |argv[idx]|;
      && (room < len ==> !ends) && (room == len ==> ends)
      && (room != len && idx + 1 == |argv| ==> !ends)
      && (room != len && idx + 1 < |argv| ==> ends == EndsAt(argv[idx + 1..], room - len - 1))
  {
    var left := argv[idx..];
    assert left[1..] == argv[idx + 1..];
    if room < |left[0]| && EndsAt(left[1..], room - |left[0]| - 1) {
      EndsWithin(left[1..], room - |left[0]| - 1);
    }
  }

  /** Behind the first nbytes at most the next byte was written, and that a NUL. */
  ghost predicate KeptBehind(buf: seq<Byte>, was: seq<Byte>, nbytes: int, over: bool) {
    |buf| == |was| && forall k :: 0 <= nbytes <= k < |buf| ==> buf[k] == if over && k == nbytes then 0 else was[k]
  }

  /** At the head of the loop. */
  ghost predicate Filling(buf: seq<Byte>, was: seq<Byte>, argv: seq<Word>, idx: nat, at: nat, nbytes: int,
                          goal: seq<Byte>, over: bool) {
    && Joined(buf, at, argv, idx, goal) && (0 < at ==> at <= nbytes)
    && KeptBehind(buf, was, nbytes, false)
    && over == (idx < |argv| && EndsAt(argv[idx..], nbytes - at))
  }

  lemma FillRefused(buf: seq<Byte>, was: seq<Byte>, argv: seq<Word>, idx: nat, at: nat, nbytes: int,
                    goal: seq<Byte>, over: bool)
    requires Filling(buf, was, argv, idx, at, nbytes, goal, over) && idx < |argv|
    requires nbytes - at < |argv[idx]|
    ensures !over && nbytes <= |goal|
  {
    EndsStep(argv, idx, nbytes - at);
    JoinedNext(argv, idx, buf[..at], goal, buf[..at] + argv[idx]);
  }

  /** The operand at idx is copied; next is the buffer then, ending the word at `end`. */
  lemma FillWord(buf: seq<Byte>, was: seq<Byte>, argv: seq<Word>, idx: nat, at: nat, nbytes: int,
                 goal: seq<Byte>, over: bool, next: seq<Byte>, end: nat)
    requires Filling(buf, was, argv, idx, at, nbytes, goal, over) && idx < |argv|
    requires end == at + |argv[idx]| <= nbytes < |buf| == |next|
    requires next[..end] == buf[..at] + argv[idx]
    requires KeptBehind(next, was, nbytes, end == nbytes)
    ensures end <= |goal| && (end == nbytes ==> over)
    ensures idx + 1 == |argv| ==> next[..end] == goal && over == (end == nbytes)
    ensures idx + 1 < |argv| && end < nbytes ==>
      Filling(next[end := BLANK], was, argv, idx + 1, end + 1, nbytes, goal, over)
  {
    EndsStep(argv, idx, nbytes - at);
    JoinedNext(argv, idx, buf[..at], goal, next[..end]);
    if end < nbytes {
      assert next[end := BLANK][..end + 1] == next[..end] + [BLANK];
    }
  }

  /** Copies the operand at idx, which fits. */
  method PutOperand(buf: array<Byte>, argv: seq<Word>, idx: nat, at: nat, nbytes: int,
                    ghost was: seq<Byte>, ghost goal: seq<Byte>, ghost over: bool)
    requires nbytes < buf.Length && idx < |argv| && at + |argv[idx]| <= nbytes
    requires Filling(buf[..], was, argv, idx, at, nbytes, goal, over)
    modifies buf
    ensures var end := at + |argv[idx]|;
      && end <= |goal| && (end == nbytes ==> over) && KeptBehind(buf[..], was, nbytes, end == nbytes)
      && (idx + 1 == |argv| ==> buf[..][..end] == goal && over == (end == nbytes))
      && (idx + 1 < |argv| && end < nbytes ==>
            Filling(buf[..][end := BLANK], was, argv, idx + 1, end + 1, nbytes, goal, over))
  {
    ghost var before := buf[..];
    PutWord(buf, at, argv[idx], nbytes, was);
    FillWord(before, was, argv, idx, at, nbytes, goal, over, buf[..], at + |argv[idx]|);
  }

  /** The copying loop: the line without its NUL, or a failure. */
  method JoinOperands(argv: seq<Word>, buf: array<Byte>, nbytes: int, ghost goal: seq<Byte>, ghost over: bool)
    returns (ok: bool, at: nat)
    requires nbytes < buf.Length && Filling(buf[..], buf[..], argv, 1, 0, nbytes, goal, over)
    modifies buf
    ensures KeptBehind(buf[..], old(buf[..]), nbytes, over)
    ensures ok ==> at <= buf.Length && buf[..][..at] == goal && (0 < at ==> at <= nbytes) && (over ==> at == nbytes)
    ensures !ok ==> nbytes <= |goal|
  {
    ghost var was := buf[..];
    var idx, room := 1, nbytes;
    at := 0;
    while idx < |argv|
      invariant 1 <= idx && 0 <= at && room == nbytes - at
      invariant Filling(buf[..], was, argv, idx, at, nbytes, goal, over)
    {
      var len := |argv[idx]|;
      if room < len {
        FillRefused(buf[..], was, argv, idx, at, nbytes, goal, over);
        return false, at;
      }
      PutOperand(buf, argv, idx, at, nbytes, was, goal, over);
      at := at + len;
      room := room - len;
      idx := idx + 1;
      if |argv| <= idx {
        break;
      }
      if room < 1 {
        return false, at;
      }
      PutByte(buf, at, BLANK);
      at := at + 1;
      room := room - 1;
    }
    return true, at;
  }

  /** getargs: the operands joined by single blanks, if that line and its NUL fit in
      nbytes. The byte behind the buffer is overwritten, with a NUL, exactly when the line
      so far ends at nbytes after some operand; every other byte behind it is kept. */
  method GetArgs(argv: seq<Word>, buf: array<Byte>, nbytes: int) returns (r: int)
    requires NoNuls(argv) && nbytes < buf.Length
    modifies buf
    ensures r == if |Join(Operands(argv))| < nbytes then 0 else -1
    ensures r == 0 ==> IsString(buf[..], 0, Join(Operands(argv)))
    ensures KeptBehind(buf[..], old(buf[..]), nbytes, Overruns(argv, nbytes))
  {
    ghost var goal, over := Join(Operands(argv)), Overruns(argv, nbytes);
    EndsAtIff(Operands(argv), nbytes);
    var ok, at := JoinOperands(argv, buf, nbytes, goal, over);
    if !ok || nbytes - at < 1 {
      return -1;
    }
    JoinHasNoNul(Operands(argv));
    FinalNul(buf[..], goal);
    PutByte(buf, at, 0);
    r := 0;
  }

  /** CopyString, within nbytes but for the NUL. */
  method PutWord(buf: array<Byte>, at: nat, w: Word, nbytes: nat, ghost was: seq<Byte>)
    requires at + |w| <= nbytes < buf.Length && KeptBehind(buf[..], was, nbytes, false)
    modifies buf
    ensures buf[..][..at + |w|] == old(buf[..at]) + w
    ensures KeptBehind(buf[..], was, nbytes, at + |w| == nbytes)
  {
    ghost var before, end := buf[..], at + |w|;
    CopyString(buf, at, w);
    assert buf[..][..end] == buf[..end];
    forall k | nbytes <= k < buf.Length
      ensures buf[k] == if end == k then 0 else before[k]
    {
      assert k > end ==> buf[k] == buf[end + 1..][k - (end + 1)] && before[k] == before[end + 1..][k - (end + 1)];
    }
  }
}
