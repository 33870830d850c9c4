/** The grep program's search of one file through a sliding 1024-byte buffer, and the
    whole-file line search it stands for. */
module Grep {

  type Byte = b: int | 0 <= b < 256

  const BUFSIZE := 1024
  const NEWLINE: Byte := 10

  type Line = seq<Byte>

  // ----- the whole-file search

  /** The bytes from `from` on, before `to`, are all other than c. */
  predicate Lacks(f: seq<Byte>, from: nat, to: nat, c: Byte)
    requires from <= to <= |f|
  {
    forall i :: from <= i < to ==> f[i] != c
  }

  function UpToNewline(f: seq<Byte>, cap: nat): (k: nat)
    ensures k <= cap && k <= |f| && Lacks(f, 0, k, NEWLINE)
    ensures k < cap && k < |f| ==> f[k] == NEWLINE
  {
    if cap == 0 || f == [] || f[0] == NEWLINE then 0 else 1 + UpToNewline(f[1..], cap - 1)
  }

  /** The first line, known to end at k, and the lines behind it. */
  function LinesFrom(f: seq<Byte>, k: nat): seq<Line>
    requires k <= |f|
    decreases |f|, 0
  {
    if k == |f| then [f] else [f[..k]] + Lines(f[k + 1..])
  }

  /** The lines of a file; the last one need not end in a newline. */
  function Lines(f: seq<Byte>): seq<Line>
    decreases |f|, 1
  {
    if f == [] then []
    else
      var k := UpToNewline(f, |f|);
      LinesFrom(f, k)
  }

  predicate StartsAt(line: Line, s: Line, i: nat) {
    i + |s| <= |line| && line[i..i + |s|] == s
  }

  predicate Occurs(line: Line, s: Line) {
    s != [] && exists i :: 0 <= i <= |line| && StartsAt(line, s, i)
  }

  /** The pattern is a part of the line. */
  ghost predicate PartOf(s: Line, line: Line) { s != [] && exists a, b :: line == a + s + b }

  /** A line contains a pattern exactly when the pattern is a part of it, wherever it stands. */
  lemma OccursIff(line: Line, s: Line)
    ensures Occurs(line, s) <==> PartOf(s, line)
  {
    if Occurs(line, s) {
      var i :| 0 <= i <= |line| && StartsAt(line, s, i);
      assert line == line[..i] + s + line[i + |s|..];
    }
    if PartOf(s, line) {
      var a, b :| line == a + s + b;
      OccursWithin(a, s, b);
    }
  }

  lemma OccursWithin(a: Line, s: Line, b: Line)
    requires s != []
    ensures Occurs(a + s + b, s)
  {
    var line := a + s + b;
    assert line[|a|..|a| + |s|] == s;
    assert StartsAt(line, s, |a|);
  }

  /** The lines that contain the pattern, in order, once each. */
  function Matching(lines: seq<Line>, s: Line): seq<Line> {
    if lines == [] then []
    else (if Occurs(lines[0], s) then [lines[0]] else []) + Matching(lines[1..], s)
  }

  // ----- the lines as the buffer cuts them

  /** What follows the piece that ends at k. */
  function Rest(f: seq<Byte>, k: nat): (r: seq<Byte>)
    requires k <= |f|
    ensures k > 0 || (k < |f| && k < BUFSIZE) ==> |r| < |f|
  {
    if k < BUFSIZE && k < |f| then f[k + 1..] else f[k..]
  }

  /** Lines, but one over 1024 bytes is cut after every 1024. */
  function Pieces(f: seq<Byte>): seq<Line>
    decreases |f|
  {
    if f == [] then []
    else
      var k := UpToNewline(f, BUFSIZE);
      [f[..k]] + Pieces(Rest(f, k))
  }

  lemma {:induction false} UpToNewlineIs(f: seq<Byte>, cap: nat, k: nat)
    requires k <= cap && k <= |f| && Lacks(f, 0, k, NEWLINE)
    requires k == cap || k == |f| || f[k] == NEWLINE
    ensures UpToNewline(f, cap) == k
    decreases k
  {
    if k > 0 {
      UpToNewlineIs(f[1..], cap - 1, k - 1);
    }
  }

  function IfOccurs(line: Line, s: Line): seq<Line> { if Occurs(line, s) then [line] else [] }

  lemma PieceStep(f: seq<Byte>, k: nat, s: Line)
    requires k <= |f| && k <= BUFSIZE && Lacks(f, 0, k, NEWLINE)
    requires k == |f| || k == BUFSIZE || f[k] == NEWLINE
    ensures Matching(Pieces(f), s) == IfOccurs(f[..k], s) + Matching(Pieces(Rest(f, k)), s)
  {
    if f != [] {
      FirstPiece(f, k);
      MatchingCons(f[..k], Pieces(Rest(f, k)), s);
    } else {
      assert Rest(f, k) == f && !Occurs(f[..k], s);
    }
  }

  lemma FirstPiece(f: seq<Byte>, k: nat)
    requires f != [] && k <= |f| && k <= BUFSIZE && Lacks(f, 0, k, NEWLINE)
    requires k == |f| || k == BUFSIZE || f[k] == NEWLINE
    ensures Pieces(f) == [f[..k]] + Pieces(Rest(f, k))
  {
    UpToNewlineIs(f, BUFSIZE, k);
  }

  lemma MatchingCons(line: Line, lines: seq<Line>, s: Line)
    ensures Matching([line] + lines, s) == IfOccurs(line, s) + Matching(lines, s)
  {
    assert ([line] + lines)[1..] == lines;
  }

  predicate Fits(lines: seq<Line>) {
    lines == [] || (|lines[0]| <= BUFSIZE && Fits(lines[1..]))
  }

  lemma {:induction false} FitsIn(lines: seq<Line>, line: Line)
    requires Fits(lines) && line in lines
    ensures |line| <= BUFSIZE
  {
    if line != lines[0] {
      FitsIn(lines[1..], line);
    }
  }

  lemma {:induction false} LongLine(lines: seq<Line>) returns (line: Line)
    requires !Fits(lines)
    ensures line in lines && |line| > BUFSIZE
  {
    if |lines[0]| > BUFSIZE {
      line := lines[0];
    } else {
      line := LongLine(lines[1..]);
    }
  }

  lemma LineStep(f: seq<Byte>, k: nat, s: Line)
    requires f != [] && k == UpToNewline(f, |f|) < |f| && Fits(Lines(f))
    ensures k <= BUFSIZE && Fits(Lines(f[k + 1..]))
    ensures Matching(Lines(f), s) == IfOccurs(f[..k], s) + Matching(Lines(f[k + 1..]), s)
  {
    var rest := Lines(f[k + 1..]);
    LinesStep(f, k);
    FitsCons(f[..k], rest);
    MatchingCons(f[..k], rest, s);
  }

  lemma LinesStep(f: seq<Byte>, k: nat)
    requires f != [] && k == UpToNewline(f, |f|) < |f|
    ensures Lines(f) == [f[..k]] + Lines(f[k + 1..])
  {
    LinesAre(f, k);
    LinesSplit(f, k);
  }

  lemma LinesSplit(f: seq<Byte>, k: nat)
    requires k < |f|
    ensures LinesFrom(f, k) == [f[..k]] + Lines(f[k + 1..])
  {
  }

  lemma LinesAre(f: seq<Byte>, k: nat)
    requires f != [] && k == UpToNewline(f, |f|)
    ensures Lines(f) == LinesFrom(f, k)
  {
  }

  lemma FitsCons(line: Line, lines: seq<Line>)
    ensures Fits([line] + lines) <==> |line| <= BUFSIZE && Fits(lines)
  {
    assert ([line] + lines)[1..] == lines;
  }

  /** The last line, when no newline ends it. */
  lemma LastLine(f: seq<Byte>, s: Line)
    requires f != [] && UpToNewline(f, |f|) == |f| && Fits(Lines(f))
    ensures Matching(Pieces(f), s) == Matching(Lines(f), s)
  {
    assert Lines(f) == [f];
    assert f[..|f|] == f && Rest(f, |f|) == [];
    PieceStep(f, |f|, s);
    MatchingCons(f, [], s);
    assert [f] + [] == [f];
  }

  /** A line that ends at k, as the buffer cuts it. */
  lemma LinePiece(f: seq<Byte>, k: nat, s: Line)
    requires k < |f| && k <= BUFSIZE && Lacks(f, 0, k, NEWLINE) && f[k] == NEWLINE
    ensures Matching(Pieces(f), s) == IfOccurs(f[..k], s) + Matching(Pieces(f[k + 1..]), s)
  {
    PieceStep(f, k, s);
    if k == BUFSIZE {
      EmptyPiece(f[k..], s);
      assert f[k..][1..] == f[k + 1..];
    }
  }

  lemma {:induction false} PiecesOfShortLines(f: seq<Byte>, s: Line)
    requires Fits(Lines(f))
    ensures Matching(Pieces(f), s) == Matching(Lines(f), s)
    decreases |f|
  {
    if f != [] {
      var k := UpToNewline(f, |f|);
      if k < |f| {
        LineStep(f, k, s);
        LinePiece(f, k, s);
        PiecesOfShortLines(f[k + 1..], s);
      } else {
        LastLine(f, s);
      }
    }
  }

  lemma EmptyPiece(f: seq<Byte>, s: Line)
    requires f != [] && f[0] == NEWLINE
    ensures Matching(Pieces(f), s) == Matching(Pieces(f[1..]), s)
  {
    PieceStep(f, 0, s);
    assert !Occurs(f[..0], s);
  }

  lemma {:induction false} PiecesFit(f: seq<Byte>)
    ensures Fits(Pieces(f))
    decreases |f|
  {
    if f != [] {
      var k := UpToNewline(f, BUFSIZE);
      PiecesFit(Rest(f, k));
      FirstPiece(f, k);
      FitsCons(f[..k], Pieces(Rest(f, k)));
    }
  }

  lemma {:induction false} MatchingFrom(lines: seq<Line>, s: Line, line: Line)
    ensures line in Matching(lines, s) <==> line in lines && Occurs(line, s)
  {
    if lines != [] {
      MatchingFrom(lines[1..], s, line);
      assert lines == [lines[0]] + lines[1..];
    }
  }

  /** The buffered search finds what the whole-file search finds, for every pattern,
      exactly when no line is longer than the buffer. */
  lemma BufferedIsWholeIff(f: seq<Byte>)
    ensures (forall s :: Matching(Pieces(f), s) == Matching(Lines(f), s)) <==> Fits(Lines(f))
  {
    if Fits(Lines(f)) {
      forall s
        ensures Matching(Pieces(f), s) == Matching(Lines(f), s)
      {
        PiecesOfShortLines(f, s);
      }
    } else {
      var line := LongLine(Lines(f));
      var s := line[..1];
      assert StartsAt(line, s, 0);
      MatchingFrom(Lines(f), s, line);
      MatchingFrom(Pieces(f), s, line);
      PiecesFit(f);
      if line in Pieces(f) {
        FitsIn(Pieces(f), line);
      }
      assert Matching(Pieces(f), s) != Matching(Lines(f), s);
    }
  }

  // ----- what the whole-file search is

  /** The lines of a file joined again, each with a newline behind it. */
  function Unlines(lines: seq<Line>): seq<Byte> {
    if lines == [] then [] else lines[0] + [10] + Unlines(lines[1..])
  }

  /** No line holds a newline. */
  lemma {:induction false} LinesAreLines(f: seq<Byte>, line: Line)
    requires line in Lines(f)
    ensures 10 !in line
    decreases |f|
  {
    var k := UpToNewline(f, |f|);
    if k < |f| {
      LinesStep(f, k);
      if line != f[..k] {
        LinesAreLines(f[k + 1..], line);
      }
    } else {
      LinesAre(f, k);
    }
  }

  /** Joined, the lines are the file again, with a final newline if it had none. */
  lemma {:induction false} LinesRebuild(f: seq<Byte>)
    ensures Unlines(Lines(f)) == if f == [] || f[|f| - 1] == 10 then f else f + [10]
    decreases |f|
  {
    if f != [] {
      var k := UpToNewline(f, |f|);
      if k < |f| {
        LinesRebuild(f[k + 1..]);
        LinesStep(f, k);
        UnlinesCons(f[..k], Lines(f[k + 1..]));
        BackTogether(f, k);
      } else {
        LinesAre(f, k);
        UnlinesCons(f, []);
      }
    }
  }

  lemma BackTogether(f: seq<Byte>, k: nat)
    requires k < |f| && f[k] == 10
    ensures var rest := f[k + 1..];
      f[..k] + [10] + (if rest == [] || rest[|rest| - 1] == 10 then rest else rest + [10]) ==
      if f[|f| - 1] == 10 then f else f + [10]
  {
  }

  lemma UnlinesCons(line: Line, lines: seq<Line>)
    ensures Unlines([line] + lines) == line + [10] + Unlines(lines)
    ensures lines == [] ==> Unlines([line]) == line + [10]
  {
    assert ([line] + lines)[1..] == lines;
    assert [line] + [] == [line];
  }

  /** One line after the other: the search finds in order, and each line that contains the
      pattern once. */
  lemma {:induction false} MatchingParts(a: seq<Line>, line: Line, b: seq<Line>, s: Line)
    ensures Matching(a + [line] + b, s) ==
            Matching(a, s) + (if PartOf(s, line) then [line] else []) + Matching(b, s)
  {
    OccursIff(line, s);
    if a == [] {
      assert a + [line] + b == [line] + b;
      MatchingCons(line, b, s);
    } else {
      assert a + [line] + b == [a[0]] + (a[1..] + [line] + b);
      MatchingParts(a[1..], line, b, s);
      MatchingCons(a[0], a[1..] + [line] + b, s);
    }
  }

  /** What is printed: exactly the pieces of which the pattern is a part. */
  lemma PrintedIff(f: seq<Byte>, s: Line, line: Line)
    ensures line in Matching(Pieces(f), s) <==> line in Pieces(f) && PartOf(s, line)
  {
    MatchingFrom(Pieces(f), s, line);
    OccursIff(line, s);
  }

  // ----- the program

  /** One read: as many bytes as asked for or as are left. */
  method Read(file: seq<Byte>, pos: nat, data: array<Byte>, at: nat, n: nat) returns (cnt: nat)
    requires pos <= |file| && at + n <= data.Length
    modifies data
    ensures cnt == if n <= |file| - pos then n else |file| - pos
    ensures data[..at] == old(data[..at]) && data[at + cnt..] == old(data[at + cnt..])
    ensures data[at..at + cnt] == file[pos..pos + cnt]
  {
    ghost var was := data[..];
    cnt := 0;
    while cnt < n && pos + cnt < |file|
      invariant 0 <= cnt <= n && pos + cnt <= |file|
      invariant forall k :: at <= k < at + cnt ==> data[k] == file[pos + (k - at)]
      invariant forall k :: 0 <= k < data.Length && !(at <= k < at + cnt) ==> data[k] == was[k]
    {
      data[at + cnt] := file[pos + cnt];
      cnt := cnt + 1;
    }
    assert data[..at] == was[..at] && data[at + cnt..] == was[at + cnt..];
    assert data[at..at + cnt] == file[pos..pos + cnt];
  }

  /** strcpy(data, data + from), overlapping downwards. */
  method CopyDown(data: array<Byte>, from: nat, ghost n: nat)
    requires 0 < from && from + n < data.Length
    requires Clean(data[..], from, from + n) && data[from + n] == 0
    modifies data
    ensures data[..n] == old(data[from..from + n]) && data[n] == 0
    ensures forall k :: n < k < data.Length ==> data[k] == old(data[k])
  {
    ghost var was := data[..];
    ghost var line := data[from..from + n];
    assert forall k :: 0 <= k < n ==> was[from + k] == line[k] != 0;
    var i := 0;
    while data[from + i] != 0
      invariant 0 <= i <= n
      invariant forall k :: 0 <= k < i ==> data[k] == line[k]
      invariant forall k :: i <= k < data.Length ==> data[k] == was[k]
      decreases n - i
    {
      data[i] := data[from + i];
      i := i + 1;
    }
    data[i] := 0;
  }

  /** strncmp(data + check, s, s_len) == 0, the line ending in a NUL at `end`. */
  method MatchesAt(data: array<Byte>, check: nat, end: nat, s: Line) returns (same: bool)
    requires check < end < data.Length && data[end] == 0
    requires 0 !in s && s != []
    ensures same <==> StartsAt(data[check..end], s, 0)
  {
    var i := 0;
    while data[check + i] == s[i]
      invariant 0 <= i < |s| && check + i <= end
      invariant forall k :: 0 <= k < i ==> s[k] == data[check + k]
      decreases |s| - i
    {
      assert s[i] in s && check + i != end;
      if i + 1 == |s| {
        SameRange(data[..], check, end, s);
        assert data[..][check..end] == data[check..end];
        return true;
      }
      i := i + 1;
    }
    assert |s| <= end - check ==> data[check..end][..|s|][i] == data[check + i];
    return false;
  }

  lemma SameRange(data: seq<Byte>, check: nat, end: nat, s: Line)
    requires check + |s| <= end <= |data| && forall k :: 0 <= k < |s| ==> s[k] == data[check + k]
    ensures StartsAt(data[check..end], s, 0)
  {
    var line := data[check..end];
    assert line[0..0 + |s|] == s;
  }

  lemma NoStart(line: Line, s: Line, k: nat)
    requires k < |line| && (s != [] ==> s[0] != line[k])
    ensures s != [] ==> !StartsAt(line, s, k)
  {
    if s != [] && k + |s| <= |line| {
      assert line[k..k + |s|][0] == line[k];
    }
  }

  method Contains(data: array<Byte>, start: nat, end: nat, s: Line) returns (found: bool)
    requires start <= end < data.Length && data[end] == 0
    requires Clean(data[..], start, end) && 0 !in s
    ensures found <==> Occurs(data[start..end], s)
    ensures found <==> PartOf(s, data[start..end])
  {
    OccursIff(data[start..end], s);
    ghost var line := data[start..end];
    var check := start;
    while check < end
      invariant start <= check <= end
      invariant s != [] ==> forall i :: 0 <= i < check - start ==> !StartsAt(line, s, i)
    {
      ghost var k := check - start;
      assert line[k] == data[check] && data[check..end] == line[k..];
      // The first byte of an empty pattern is its NUL, which no line contains.
      var first := if s == [] then 0 else s[0];
      if first == data[check] {
        var same := MatchesAt(data, check, end, s);
        ShiftStart(line, s, k);
        if same {
          return true;
        }
      } else {
        NoStart(line, s, k);
      }
      check := check + 1;
    }
    assert s != [] ==> !StartsAt(line, s, |line|);
    return false;
  }

  lemma ShiftStart(line: Line, s: Line, k: nat)
    requires k <= |line|
    ensures StartsAt(line, s, k) <==> StartsAt(line[k..], s, 0)
  {
    if k + |s| <= |line| {
      assert line[k..][0..0 + |s|] == line[k..k + |s|];
    }
  }

  /** No NUL among the bytes from start to last. */
  ghost predicate Clean(data: seq<Byte>, start: nat, last: nat)
    requires start <= last <= |data|
  {
    Lacks(data, start, last, 0)
  }

  /** The bytes still to be searched: what the buffer holds from `start`, and the rest of
      the file. */
  ghost function Window(file: seq<Byte>, pos: nat, data: seq<Byte>, start: nat, last: nat): seq<Byte>
    requires pos <= |file| && start <= last <= |data|
  {
    data[start..last] + file[pos..]
  }

  /** The window is w, and what the buffer holds of it has no NUL. */
  ghost predicate Held(file: seq<Byte>, pos: nat, data: seq<Byte>, start: nat, last: nat, w: seq<Byte>)
    requires pos <= |file| && start <= last <= |data|
  {
    Clean(data, start, last) && w == Window(file, pos, data, start, last)
  }

  /** What was printed and what the window still has to give make up the goal. */
  ghost predicate Accounts(out: seq<Line>, w: seq<Byte>, s: Line, goal: seq<Line>) {
    out + Matching(Pieces(w), s) == goal
  }

  method LineEnd(data: array<Byte>, start: nat, last: nat) returns (end: nat)
    requires start <= last < data.Length
    ensures start <= end <= last && Lacks(data[..], start, end, NEWLINE)
    ensures end < last ==> data[end] == NEWLINE
  {
    end := start;
    while end < last && NEWLINE != data[end]
      invariant start <= end <= last && Lacks(data[..], start, end, NEWLINE)
    {
      end := end + 1;
    }
  }

  /** Moves an incomplete line to the front of the buffer. */
  method MoveToFront(data: array<Byte>, start: nat, last: nat, ghost file: seq<Byte>, ghost pos: nat,
                     ghost w: seq<Byte>)
    requires data.Length == BUFSIZE + 1 && 0 < start <= last <= BUFSIZE && pos <= |file|
    requires Clean(data[..], start, last) && data[BUFSIZE] != NEWLINE
    requires w == Window(file, pos, data[..], start, last)
    modifies data
    ensures Clean(data[..], 0, last - start) && data[BUFSIZE] != NEWLINE
    ensures w == Window(file, pos, data[..], 0, last - start)
  {
    ghost var n, line := last - start, data[start..last];
    assert line == data[..][start..last];
    assert forall i :: 0 <= i < n ==> line[i] != 0;
    data[last] := 0;
    assert data[start..start + n] == line;
    CopyDown(data, start, n);
    assert data[..][0..n] == data[..n] == line;
    KeptFront(data[..], line);
  }

  lemma KeptFront(data: seq<Byte>, line: Line)
    requires |line| <= |data| && data[0..|line|] == line && forall i :: 0 <= i < |line| ==> line[i] != 0
    ensures Clean(data, 0, |line|)
  {
    assert forall i :: 0 <= i < |line| ==> data[i] == data[0..|line|][i];
  }

  /** Fills the buffer behind the bytes kept from before. */
  method Fill(file: seq<Byte>, pos: nat, data: array<Byte>, last: nat, ghost w: seq<Byte>) returns (cnt: nat)
    requires data.Length == BUFSIZE + 1 && last < BUFSIZE && pos <= |file| && 0 !in file
    requires data[BUFSIZE] != NEWLINE && Held(file, pos, data[..], 0, last, w)
    modifies data
    ensures pos + cnt <= |file| && last + cnt <= BUFSIZE
    ensures cnt == 0 || last + cnt < BUFSIZE ==> pos + cnt == |file|
    ensures data[BUFSIZE] != NEWLINE && Held(file, pos + cnt, data[..], 0, last + cnt, w)
  {
    ghost var was := data[..];
    assert was[..last] == data[..last];
    cnt := Read(file, pos, data, last, BUFSIZE - last);
    assert data[..][last..last + cnt] == data[last..last + cnt] && data[..][..last] == data[..last];
    assert data[BUFSIZE] == data[last + cnt..][BUFSIZE - (last + cnt)];
    ReadKeepsWindow(file, pos, was, data[..], last, cnt, w);
  }

  /** do_one_file on an opened file: the lines printed are the matching pieces of the file. */
  method DoOneFile(s: Line, file: seq<Byte>, data: array<Byte>) returns (out: seq<Line>)
    requires data.Length == BUFSIZE + 1 && data[BUFSIZE] != NEWLINE
    requires 0 !in file && 0 !in s
    modifies data
    ensures out == Matching(Pieces(file), s)
    ensures forall line :: line in out <==> line in Pieces(file) && PartOf(s, line)
  {
    out := [];
    var last, pos := 0, 0;
    var eof := false;
    ghost var w, goal := file, Matching(Pieces(file), s);
    SearchStarts(file, data[..], s);
    while !eof
      invariant 0 <= last < BUFSIZE && pos <= |file| && data[BUFSIZE] != NEWLINE
      invariant Searching(file, pos, data[..], 0, last, s, out, w, goal)
      invariant eof ==> w == []
      decreases |file| - pos, !eof
    {
      var cnt;
      cnt, out, last, w := ReadAndSearch(s, file, pos, data, last, out, w, goal);
      pos := pos + cnt;
      if cnt == 0 {
        eof := true;
      }
    }
    SearchDone(file, pos, data[..], last, s, out, w, goal);
    forall line
      ensures line in out <==> line in Pieces(file) && PartOf(s, line)
    {
      PrintedIff(file, s, line);
    }
  }

  lemma SearchDone(file: seq<Byte>, pos: nat, data: seq<Byte>, last: nat, s: Line, out: seq<Line>,
                   w: seq<Byte>, goal: seq<Line>)
    requires pos <= |file| && last <= |data| && Searching(file, pos, data, 0, last, s, out, w, goal) && w == []
    ensures out == goal
  {
  }


  lemma SearchStarts(file: seq<Byte>, data: seq<Byte>, s: Line)
    ensures Searching(file, 0, data, 0, 0, s, [], file, Matching(Pieces(file), s))
  {
    assert Window(file, 0, data, 0, 0) == file && data[0..0] == [];
  }

  /** One turn of the outer loop. */
  method ReadAndSearch(s: Line, file: seq<Byte>, pos: nat, data: array<Byte>, kept: nat, printed: seq<Line>,
                       ghost before: seq<Byte>, ghost goal: seq<Line>)
    returns (cnt: nat, out: seq<Line>, last: nat, ghost w: seq<Byte>)
    requires data.Length == BUFSIZE + 1 && data[BUFSIZE] != NEWLINE
    requires kept < BUFSIZE && pos <= |file| && 0 !in file && 0 !in s
    requires Searching(file, pos, data[..], 0, kept, s, printed, before, goal)
    modifies data
    ensures pos + cnt <= |file| && (cnt == 0 ==> w == [])
    ensures last < BUFSIZE && data[BUFSIZE] != NEWLINE
    ensures Searching(file, pos + cnt, data[..], 0, last, s, out, w, goal)
  {
    cnt := Fill(file, pos, data, kept, before);
    var pos', filled := pos + cnt, kept + cnt;
    out, last, w := SearchBuffer(s, file, pos', data, cnt, filled, printed, before, goal);
  }

  lemma ReadKeepsWindow(file: seq<Byte>, pos: nat, was: seq<Byte>, data: seq<Byte>, last: nat, cnt: nat, w: seq<Byte>)
    requires last + cnt < |data| == |was| && pos + cnt <= |file| && 0 !in file
    requires data[last..last + cnt] == file[pos..pos + cnt] && data[..last] == was[..last]
    requires Clean(was, 0, last) && w == Window(file, pos, was, 0, last)
    ensures w == Window(file, pos + cnt, data, 0, last + cnt) && Clean(data, 0, last + cnt)
  {
    assert data[0..last + cnt] == was[0..last] + data[last..last + cnt];
    forall i | 0 <= i < last + cnt
      ensures data[i] != 0
    {
      if i < last {
        assert data[i] == data[..last][i] == was[..last][i] == was[i];
      } else {
        assert data[i] == data[last..last + cnt][i - last] == file[pos..pos + cnt][i - last] == file[pos + (i - last)];
        assert file[pos + (i - last)] in file;
      }
    }
    assert file[pos..] == file[pos..pos + cnt] + file[pos + cnt..];
  }

  /** Ends the line with a NUL and prints it if it contains the pattern. */
  method SearchLine(data: array<Byte>, start: nat, end: nat, s: Line, printed: seq<Line>) returns (out: seq<Line>)
    requires start <= end < data.Length && Clean(data[..], start, end) && 0 !in s
    modifies data
    ensures data[..] == old(data[..])[end := 0]
    ensures out == printed + IfOccurs(old(data[..])[start..end], s)
  {
    ghost var line := data[..][start..end];
    data[end] := 0;
    assert data[start..end] == line;
    out := printed;
    var found := Contains(data, start, end, s);
    if found {
      out := out + [data[start..end]];
    }
  }

  /** The inner loop: searches every line the buffer holds completely, and moves an
      incomplete one to the front. */
  method SearchBuffer(s: Line, file: seq<Byte>, pos: nat, data: array<Byte>, cnt: nat, filled: nat,
                      printed: seq<Line>, ghost before: seq<Byte>, ghost goal: seq<Line>)
    returns (out: seq<Line>, last: nat, ghost w: seq<Byte>)
    requires data.Length == BUFSIZE + 1 && data[BUFSIZE] != NEWLINE
    requires filled <= BUFSIZE && pos <= |file| && 0 !in s
    requires cnt == 0 || filled < BUFSIZE ==> pos == |file|
    requires Searching(file, pos, data[..], 0, filled, s, printed, before, goal)
    modifies data
    ensures last < BUFSIZE && data[BUFSIZE] != NEWLINE
    ensures Searching(file, pos, data[..], 0, last, s, out, w, goal)
    ensures cnt == 0 ==> w == []
  {
    out, w := printed, before;
    var start, done := 0, false;
    last := 0;
    while !done
      invariant data[BUFSIZE] != NEWLINE
      invariant !done ==> 0 <= start <= filled && Searching(file, pos, data[..], start, filled, s, out, w, goal)
      invariant done ==> last < BUFSIZE && Searching(file, pos, data[..], 0, last, s, out, w, goal)
      invariant done && cnt == 0 ==> w == []
      decreases !done, filled - start
    {
      out, w, start, done, last := SearchTurn(s, file, pos, data, cnt, start, filled, out, w, goal);
    }
  }

  /** One line: searched if it is complete, kept for the next read if it is not. */
  method SearchTurn(s: Line, file: seq<Byte>, pos: nat, data: array<Byte>, cnt: nat, start: nat, filled: nat,
                    printed: seq<Line>, ghost before: seq<Byte>, ghost goal: seq<Line>)
    returns (out: seq<Line>, ghost w: seq<Byte>, next: nat, done: bool, last: nat)
    requires data.Length == BUFSIZE + 1 && data[BUFSIZE] != NEWLINE
    requires start <= filled <= BUFSIZE && pos <= |file| && 0 !in s
    requires cnt == 0 || filled < BUFSIZE ==> pos == |file|
    requires Searching(file, pos, data[..], start, filled, s, printed, before, goal)
    modifies data
    ensures data[BUFSIZE] != NEWLINE && start < next
    ensures !done ==> next <= filled && Searching(file, pos, data[..], next, filled, s, out, w, goal)
    ensures done ==> last < BUFSIZE && Searching(file, pos, data[..], 0, last, s, out, w, goal)
    ensures done && cnt == 0 ==> w == []
  {
    var end := LineEnd(data, start, filled);
    next := end + 1;
    if NEWLINE != data[end] && 0 != cnt && start != 0 {
      KeepRest(s, data, start, filled, file, pos, printed, before, goal);
      return printed, before, next, true, filled - start;
    }
    assert end == filled ==> pos == |file| || (start == 0 && filled == BUFSIZE);
    out, w := SearchNext(s, file, pos, data, start, end, filled, printed, before, goal);
    done, last := next >= filled, 0;
    if done {
      NothingKept(file, pos, data[..], s, out, w, goal);
    }
  }

  lemma NothingKept(file: seq<Byte>, pos: nat, data: seq<Byte>, s: Line, out: seq<Line>, w: seq<Byte>, goal: seq<Line>)
    requires pos <= |file| && w == file[pos..] && Accounts(out, w, s, goal)
    ensures Searching(file, pos, data, 0, 0, s, out, w, goal)
    ensures pos == |file| ==> w == []
  {
    assert data[0..0] == [];
  }

  method KeepRest(ghost s: Line, data: array<Byte>, start: nat, last: nat, ghost file: seq<Byte>, ghost pos: nat,
                  ghost out: seq<Line>, ghost w: seq<Byte>, ghost goal: seq<Line>)
    requires data.Length == BUFSIZE + 1 && 0 < start <= last <= BUFSIZE && pos <= |file|
    requires data[BUFSIZE] != NEWLINE && Searching(file, pos, data[..], start, last, s, out, w, goal)
    modifies data
    ensures data[BUFSIZE] != NEWLINE && Searching(file, pos, data[..], 0, last - start, s, out, w, goal)
  {
    MoveToFront(data, start, last, file, pos, w);
  }

  /** Between two lines of the buffer: what was printed and the pieces of the window make
      up the goal. */
  ghost predicate Searching(file: seq<Byte>, pos: nat, data: seq<Byte>, start: nat, last: nat, s: Line,
                            out: seq<Line>, w: seq<Byte>, goal: seq<Line>)
    requires pos <= |file| && start <= last <= |data|
  {
    Held(file, pos, data, start, last, w) && Accounts(out, w, s, goal)
  }

  /** Searches the complete line from start to end. */
  method SearchNext(s: Line, ghost file: seq<Byte>, ghost pos: nat, data: array<Byte>, start: nat, end: nat, last: nat,
                    printed: seq<Line>, ghost before: seq<Byte>, ghost goal: seq<Line>)
    returns (out: seq<Line>, ghost w: seq<Byte>)
    requires data.Length == BUFSIZE + 1 && data[BUFSIZE] != NEWLINE
    requires start <= end <= last <= BUFSIZE && pos <= |file| && 0 !in s
    requires Searching(file, pos, data[..], start, last, s, printed, before, goal)
    requires Lacks(data[..], start, end, NEWLINE)
    requires if end < last then data[end] == NEWLINE else pos == |file| || last - start == BUFSIZE
    modifies data
    ensures data[BUFSIZE] != NEWLINE && Accounts(out, w, s, goal)
    ensures if end + 1 < last then Held(file, pos, data[..], end + 1, last, w) else w == file[pos..]
  {
    ghost var was := data[..];
    w := NextGoal(s, file, pos, was, start, end, last, printed, before, goal);
    out := SearchLine(data, start, end, s, printed);
    assert out == printed + IfOccurs(was[start..end], s);
    assert Clean(was, start, last);
    if end + 1 < last {
      TailKept(file, pos, was, data[..], start, end, last, w);
    } else {
      assert end < last ==> was[end + 1..last] == [];
    }
  }

  lemma NextGoal(s: Line, file: seq<Byte>, pos: nat, was: seq<Byte>, start: nat, end: nat, last: nat,
                 printed: seq<Line>, before: seq<Byte>, goal: seq<Line>)
    returns (w: seq<Byte>)
    requires start <= end <= last <= BUFSIZE < |was| && pos <= |file|
    requires Searching(file, pos, was, start, last, s, printed, before, goal)
    requires Lacks(was, start, end, NEWLINE)
    requires if end < last then was[end] == NEWLINE else pos == |file| || last - start == BUFSIZE
    ensures Clean(was, start, end)
    ensures Accounts(printed + IfOccurs(was[start..end], s), w, s, goal)
    ensures w == if end < last then was[end + 1..last] + file[pos..] else file[pos..]
  {
    LineClean(was, start, end, last);
    w := PieceEnds(file, pos, was, start, end, last, s, before);
    Regrouped(printed, IfOccurs(was[start..end], s), Matching(Pieces(w), s), Matching(Pieces(before), s), goal);
  }

  lemma Regrouped(printed: seq<Line>, found: seq<Line>, later: seq<Line>, all: seq<Line>, goal: seq<Line>)
    requires all == found + later && goal == printed + all
    ensures (printed + found) + later == goal
  {
  }

  lemma LineClean(was: seq<Byte>, start: nat, end: nat, last: nat)
    requires start <= end <= last < |was| && Clean(was, start, last)
    ensures Clean(was, start, end)
  {
  }

  /** Ending the line with a NUL leaves the window behind it as it was. */
  lemma TailKept(file: seq<Byte>, pos: nat, was: seq<Byte>, data: seq<Byte>, start: nat, end: nat, last: nat,
                 w: seq<Byte>)
    requires start <= end < last < |was| && pos <= |file| && Clean(was, start, last) && data == was[end := 0]
    requires w == was[end + 1..last] + file[pos..]
    ensures Held(file, pos, data, end + 1, last, w)
  {
    assert data[end + 1..last] == was[end + 1..last];
  }

  /** The line found is the next piece, and the window moves past it. */
  lemma PieceEnds(file: seq<Byte>, pos: nat, data: seq<Byte>, start: nat, end: nat, last: nat, s: Line, w: seq<Byte>)
    returns (rest: seq<Byte>)
    requires pos <= |file| && start <= end <= last <= BUFSIZE < |data|
    requires Lacks(data, start, end, NEWLINE)
    requires if end < last then data[end] == NEWLINE else pos == |file| || last - start == BUFSIZE
    requires w == Window(file, pos, data, start, last)
    ensures Matching(Pieces(w), s) == IfOccurs(data[start..end], s) + Matching(Pieces(rest), s)
    ensures rest == if end < last then data[end + 1..last] + file[pos..] else file[pos..]
  {
    WindowSplit(file, pos, data, start, end, last, w, end - start);
    rest := Rest(w, end - start);
    PieceStep(w, end - start, s);
  }

  lemma WindowSplit(file: seq<Byte>, pos: nat, data: seq<Byte>, start: nat, end: nat, last: nat, w: seq<Byte>, k: nat)
    requires pos <= |file| && start <= end <= last <= BUFSIZE < |data|
    requires if end < last then data[end] == NEWLINE else pos == |file| || last - start == BUFSIZE
    requires w == Window(file, pos, data, start, last) && k == end - start
    ensures k <= |w| && k <= BUFSIZE && w[..k] == data[start..end]
    ensures k == |w| || k == BUFSIZE || w[k] == NEWLINE
    ensures Lacks(data, start, end, NEWLINE) ==> Lacks(w, 0, k, NEWLINE)
    ensures Rest(w, k) == if end < last then data[end + 1..last] + file[pos..] else file[pos..]
  {
    assert forall i :: 0 <= i < k ==> w[i] == data[start + i];
    if end < last {
      assert w[k] == data[end];
      assert w[k + 1..] == data[end + 1..last] + file[pos..];
    } else {
      assert w[k..] == file[pos..];
    }
  }
}
