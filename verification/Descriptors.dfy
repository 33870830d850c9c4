/** The file descriptors of the processes: what open, close and reads do to the running
    process's table, and what every other event leaves alone. */
module Descriptors {
  import opened Processes
  import opened Kernel

  const FILES := 8
  const NOINODE := 0

  /** The operations behind a descriptor. */
  datatype Kind = Rtc | Directory | File | Stdin | Stdout | Nothing

  datatype Desc = Desc(kind: Kind, inode: int, position: int, engaged: bool)

  /** The descriptors of a new process: the two streams and six free ones. */
  const FRESH: seq<Desc> := [
    Desc(Stdin, NOINODE, 0, true), Desc(Stdout, NOINODE, 0, true),
    FREE, FREE, FREE, FREE, FREE, FREE]

  const FREE := Desc(Nothing, NOINODE, 0, false)

  datatype Call =
    | Open(kind: Kind, inode: int)
    | Close(fd: int)
    | Advance(fd: int, n: int)

  // ----- one table

  /** The lowest free descriptor from `from` on, 8 if there is none. */
  function Lowest(table: seq<Desc>, from: nat): (fd: nat)
    requires from <= |table| == FILES
    ensures from <= fd <= FILES
    ensures fd < FILES ==> !table[fd].engaged
    ensures forall i :: from <= i < fd ==> table[i].engaged
    decreases FILES - from
  {
    if from == FILES || !table[from].engaged then from else Lowest(table, from + 1)
  }

  function Released(d: Desc): Desc { d.(inode := NOINODE, position := 0, engaged := false) }

  function Apply(table: seq<Desc>, call: Call): (r: seq<Desc>)
    requires |table| == FILES
    ensures |r| == FILES && (!call.Advance? ==> r[0] == table[0] && r[1] == table[1])
  {
    match call
    case Open(kind, inode) =>
      var fd := Lowest(table, 2);
      if fd == FILES then table else table[fd := Desc(kind, inode, 0, true)]
    case Close(fd) =>
      if 2 <= fd < FILES && table[fd].engaged then table[fd := Released(table[fd])] else table
    case Advance(fd, n) =>
      if 0 <= fd < FILES && table[fd].engaged then
        table[fd := table[fd].(position := (table[fd].position + n) % 0x1_0000_0000)]
      else table
  }

  /** Free descriptors carry no inode and stand at position 0. */
  ghost predicate Tidy(table: seq<Desc>) {
    && |table| == FILES
    && forall i :: 2 <= i < FILES && !table[i].engaged ==> table[i].inode == NOINODE && table[i].position == 0
  }

  function Calls(table: seq<Desc>, calls: seq<Call>): (r: seq<Desc>)
    requires |table| == FILES
    ensures |r| == FILES
    decreases |calls|
  {
    if calls == [] then table else Calls(Apply(table, calls[0]), calls[1..])
  }

  lemma {:induction false} CallsKeepTidy(table: seq<Desc>, calls: seq<Call>)
    requires Tidy(table)
    ensures Tidy(Calls(table, calls))
    decreases |calls|
  {
    if calls != [] {
      CallsKeepTidy(Apply(table, calls[0]), calls[1..]);
    }
  }

  /** No call in the sequence closes descriptor fd. */
  predicate NoClose(calls: seq<Call>, fd: int) { forall i :: 0 <= i < |calls| ==> calls[i] != Close(fd) }

  /** What a call does to a descriptor in use, unless it closes it: a read moves its
      position, and nothing else touches it. */
  lemma InUseKept(table: seq<Desc>, call: Call, fd: int)
    requires |table| == 8 && 0 <= fd < 8 && table[fd].engaged && call != Close(fd)
    ensures Apply(table, call)[fd] == table[fd].(position :=
      if call.Advance? && call.fd == fd then (table[fd].position + call.n) % 0x1_0000_0000 else table[fd].position)
  {
  }

  lemma {:induction false} InUseKeeps(table: seq<Desc>, calls: seq<Call>, fd: int)
    requires |table| == 8 && 0 <= fd < 8 && table[fd].engaged && NoClose(calls, fd)
    ensures var r := Calls(table, calls)[fd];
      r.engaged && r.kind == table[fd].kind && r.inode == table[fd].inode
    decreases |calls|
  {
    if calls != [] {
      InUseKept(table, calls[0], fd);
      InUseKeeps(Apply(table, calls[0]), calls[1..], fd);
    }
  }

  /** An opened descriptor names the file it was opened for, from position 0 on, until it is
      closed, whatever is opened, closed and read besides; the other seven are as before. */
  lemma OpenedUntilClosed(table: seq<Desc>, kind: Kind, inode: int, calls: seq<Call>)
    requires |table| == 8 && Lowest(table, 2) < 8 && NoClose(calls, Lowest(table, 2))
    ensures var fd, after := Lowest(table, 2), Apply(table, Open(kind, inode));
      && after[fd] == Desc(kind, inode, 0, true)
      && (forall i :: 0 <= i < 8 && i != fd ==> after[i] == table[i])
      && var r := Calls(after, calls)[fd];
        r.engaged && r.kind == kind && r.inode == inode
  {
    InUseKeeps(Apply(table, Open(kind, inode)), calls, Lowest(table, 2));
  }

  /** Whatever a process has called before, opening a file and closing the descriptor again
      leaves every descriptor as it was, but for the operations a free one remembers. */
  lemma CloseUndoesOpen(calls: seq<Call>, kind: Kind, inode: int)
    ensures var table := Calls(FRESH, calls);
      var fd := Lowest(table, 2);
      Apply(Apply(table, Open(kind, inode)), Close(fd)) ==
      if fd == FILES then table else table[fd := table[fd].(kind := kind)]
  {
    CallsKeepTidy(FRESH, calls);
  }

  // ----- the tables of all processes

  datatype Act = Sched(e: Event) | Files(call: Call)

  datatype World = World(k: Data, tables: seq<seq<Desc>>)

  ghost predicate WorldOk(w: World) {
    |w.tables| == PROCESSES && forall p :: 0 <= p < PROCESSES ==> |w.tables[p]| == FILES
  }

  /** The process an execute starts, if it starts one. */
  function Starts(k: Data, image: Image): Option<int>
    requires Ready(k)
  {
    var tty := k.ttys[k.active];
    if !image.Program? then None
    else if tty.init == 0 then Some(tty.pid)
    else if FirstFree(k.pids, 3) < PROCESSES then Some(FirstFree(k.pids, 3))
    else None
  }

  function WithFresh(tables: seq<seq<Desc>>, p: Option<int>): (r: seq<seq<Desc>>)
    requires |tables| == PROCESSES && (p.Some? ==> 0 <= p.value < PROCESSES)
    ensures |r| == PROCESSES
  {
    if p.Some? then tables[p.value := FRESH] else tables
  }

  /** Halt frees all eight, the streams too. */
  function Closed(table: seq<Desc>): seq<Desc> {
    seq(|table|, i requires 0 <= i < |table| => table[i].(engaged := false))
  }

  ghost function StepTables(k: Data, tables: seq<seq<Desc>>, act: Act): (r: seq<seq<Desc>>)
    requires WorldOk(World(k, tables)) && Ready(k)
    ensures WorldOk(World(k, r))
  {
    var p := k.ttys[k.active].pid;
    match act
    case Files(call) => tables[p := Apply(tables[p], call)]
    case Sched(Execute(image, _)) => WithFresh(tables, Starts(k, image))
    case Sched(Halt(_)) => if p < 3 then tables[k.active := FRESH] else tables[p := Closed(tables[p])]
    case Sched(Tick(_, _)) =>
      if k.ttys[0].init != 0 && Boots(k) then tables[k.ttys[(k.active + 1) % TERMINALS].pid := FRESH] else tables
  }

  ghost function StepWorld(w: World, act: Act): (r: World)
    requires WorldOk(w)
    ensures WorldOk(r)
  {
    if !Ready(w.k) then w
    else World(if act.Sched? then DataStep(w.k, act.e) else w.k, StepTables(w.k, w.tables, act))
  }

  ghost function RunWorld(w: World, acts: seq<Act>): (r: World)
    requires WorldOk(w)
    ensures WorldOk(r)
    decreases |acts|
  {
    if acts == [] then w else RunWorld(StepWorld(w, acts[0]), acts[1..])
  }

  /** The ticks, executes and halts among the acts. */
  function Events(acts: seq<Act>): seq<Event> {
    if acts == [] then []
    else (if acts[0].Sched? then [acts[0].e] else []) + Events(acts[1..])
  }

  // ----- what the others leave alone

  /** A process below the top of its terminal's stack is not the one that runs. */
  lemma NotRunning(k: Data, s: System, t: int, i: nat)
    requires Agrees(k, s) && 0 <= t < TERMINALS && i + 1 < |Stack(s, t)|
    ensures Ready(k) && k.active == s.active && IsPid(Stack(s, t)[i].pid)
    ensures Stack(s, t)[i].pid != k.ttys[k.active].pid
    ensures |Stack(s, s.active)| <= 1 ==> Stack(s, t)[i].pid != s.active
  {
    var top := Stack(s, s.active);
    AgreesReady(k, s);
    ActiveChain(k, s);
    PidInRange(s, t, i);
    assert Stack(s, t)[i].pid != Top(top, s.active) by {
      if top == [] {
        NotBase(s, t, i, s.active);
      } else if t == s.active {
        assert StackOk(Stack(s, t), t);
        PidsOnce(Stack(s, t), t, i, |top| - 1);
      } else {
        NotShared(s, t, s.active, i, |top| - 1);
      }
    }
    if |top| <= 1 {
      NotBase(s, t, i, s.active);
    }
  }

  lemma NotBase(s: System, t: int, i: nat, u: int)
    requires Tree(s) && 0 <= t < TERMINALS && 0 <= u < TERMINALS && t != u && i < |Stack(s, t)|
    ensures Stack(s, t)[i].pid != u
  {
    assert StackOk(Stack(s, t), t);
    BasePid(Stack(s, t), t);
    InPids(Stack(s, t), i);
  }

  lemma NotStarted(k: Data, s: System, image: Image, c: Ctx, t: int, i: nat)
    requires Agrees(k, s) && 0 <= t < TERMINALS && i + 1 < |Stack(s, t)|
    ensures Ready(k) && Starts(k, image) != Some(Stack(s, t)[i].pid)
  {
    ExecCases(k, s, c);
    NotRunning(k, s, t, i);
    InPids(Stack(s, t), i);
    assert Stack(s, t)[i].pid in Used(s);
  }

  /** Whatever happens, only the running process and a new one see their tables change. */
  lemma StepKeepsTable(w: World, s: System, act: Act, t: int, i: nat)
    requires WorldOk(w) && Agrees(w.k, s) && 0 <= t < TERMINALS && i + 1 < |Stack(s, t)|
    ensures var p := Stack(s, t)[i].pid;
      IsPid(p) && StepWorld(w, act).tables[p] == w.tables[p]
  {
    NotRunning(w.k, s, t, i);
    match act
    case Files(_) =>
    case Sched(Execute(image, c)) => NotStarted(w.k, s, image, c, t, i);
    case Sched(Halt(_)) =>
      ActiveChain(w.k, s);
      TtyReady(w.k, Stack(s, s.active), s.active);
    case Sched(Tick(_, _)) => NotBooted(w.k, s, t, i);
  }

  lemma NotBooted(k: Data, s: System, t: int, i: nat)
    requires Agrees(k, s) && Ready(k) && 0 <= t < TERMINALS && i + 1 < |Stack(s, t)|
    ensures k.ttys[0].init != 0 && Boots(k) ==> Stack(s, t)[i].pid != k.ttys[(k.active + 1) % TERMINALS].pid
  {
    BootsIff(k, s);
    if k.ttys[0].init != 0 && Boots(k) {
      assert ChainOk(k, Stack(s, Next(s)), Next(s));
      NotBase(s, t, i, Next(s));
    }
  }

  /** A process keeps its descriptors, files and positions alike, through any run in which
      its terminal never falls back to it: whatever the processes above it and those on
      other terminals open, close, read, execute and halt. */
  lemma {:induction false} DescriptorsSurvive(w: World, s: System, acts: seq<Act>, t: int, i: nat)
    requires WorldOk(w) && Agrees(w.k, s) && 0 <= t < TERMINALS
    requires AllLoadable(Events(acts)) && StaysAbove(s, Events(acts), t, i + 2)
    ensures var p := Stack(s, t)[i].pid;
      IsPid(p) && RunWorld(w, acts).tables[p] == w.tables[p]
    decreases |acts|
  {
    if acts == [] {
      PidInRange(s, t, i);
    } else {
      var act, rest := acts[0], acts[1..];
      StepKeepsTable(w, s, act, t, i);
      AgreesReady(w.k, s);
      if act.Sched? {
        HeadEvent(act.e, Events(rest), Events(acts));
        StepRefines(w.k, s, act.e);
        BelowTopStays(s, act.e, t, i);
        DescriptorsSurvive(StepWorld(w, act), Step(s, act.e), rest, t, i);
      } else {
        assert Events(acts) == Events(rest);
        DescriptorsSurvive(StepWorld(w, act), s, rest, t, i);
      }
    }
  }

  /** A new process starts with the two streams alone, and when it is on top again to be
      halted the process that executed it still has the descriptors it had then. */
  lemma ParentFilesAtHalt(w: World, s: System, c: Ctx, acts: seq<Act>)
    requires WorldOk(w) && Agrees(w.k, s) && Stack(s, s.active) != [] && FreePid(s) < PROCESSES
    requires Balanced(s, c, Events(acts))
    ensures var p, w1 := Top(Stack(s, s.active), s.active), StepWorld(w, Sched(Execute(Program, c)));
      IsPid(p) && w1.tables[FreePid(s)] == FRESH && RunWorld(w1, acts).tables[p] == w.tables[p]
  {
    var t, i, s1 := s.active, |Stack(s, s.active)| - 1, Step(s, Execute(Program, c));
    ExecuteTables(w, s, c);
    assert Agrees(StepWorld(w, Sched(Execute(Program, c))).k, s1) by {
      AgreesReady(w.k, s);
      StepRefines(w.k, s, Execute(Program, c));
    }
    assert Stack(s1, t)[i] == Stack(s, t)[i];
    DescriptorsSurvive(StepWorld(w, Sched(Execute(Program, c))), s1, acts, t, i);
  }

  lemma ExecuteTables(w: World, s: System, c: Ctx)
    requires WorldOk(w) && Agrees(w.k, s) && Stack(s, s.active) != [] && FreePid(s) < PROCESSES
    ensures var p, r := Top(Stack(s, s.active), s.active), StepWorld(w, Sched(Execute(Program, c)));
      IsPid(p) && r.tables[FreePid(s)] == FRESH && r.tables[p] == w.tables[p]
  {
    ExecCases(w.k, s, c);
    InPids(Stack(s, s.active), |Stack(s, s.active)| - 1);
    PidInRange(s, s.active, |Stack(s, s.active)| - 1);
    assert Starts(w.k, Program) == Some(FreePid(s));
    assert Top(Stack(s, s.active), s.active) in Used(s);
  }

  /** Every process that comes up has the standard input, the standard output and nothing
      else: the shell a tick boots, the base shell a halt restarts, and an executed program. */
  lemma StartsWithStreams(w: World, s: System, e: Event)
    requires WorldOk(w) && Agrees(w.k, s) && Loadable(e)
    ensures var r, stack := StepWorld(w, Sched(e)), Stack(s, s.active);
      && (e.Tick? && Stack(s, 0) != [] && Stack(s, Next(s)) == [] ==> OnlyStreams(r.tables[Next(s)]))
      && (e.Halt? && |stack| <= 1 ==> OnlyStreams(r.tables[s.active]))
      && (e.Execute? && e.image.Program? && stack == [] ==> OnlyStreams(r.tables[s.active]))
      && (e.Execute? && e.image.Program? && stack != [] && FreePid(s) < PROCESSES ==> OnlyStreams(r.tables[FreePid(s)]))
  {
    match e
    case Tick(_, _) => BootStreams(w, s, e);
    case Execute(image, c) => ExecCases(w.k, s, c);
    case Halt(_) => RunningIsUsed(w.k, s);
  }

  lemma BootStreams(w: World, s: System, e: Event)
    requires WorldOk(w) && Agrees(w.k, s) && e.Tick?
    ensures Stack(s, 0) != [] && Stack(s, Next(s)) == [] ==> OnlyStreams(StepWorld(w, Sched(e)).tables[Next(s)])
  {
    AgreesReady(w.k, s);
    BootsIff(w.k, s);
    if w.k.ttys[0].init != 0 && Boots(w.k) {
      assert ChainOk(w.k, Stack(s, Next(s)), Next(s));
    }
  }

  predicate OnlyStreams(table: seq<Desc>) {
    && |table| == 8 && table[0] == Desc(Stdin, 0, 0, true) && table[1] == Desc(Stdout, 0, 0, true)
    && forall i :: 2 <= i < 8 ==> table[i] == Desc(Nothing, 0, 0, false)
  }

  lemma HeadEvent(e: Event, rest: seq<Event>, all: seq<Event>)
    requires all == [e] + rest && AllLoadable(all)
    ensures Loadable(e) && AllLoadable(rest) && all[0] == e && all[1..] == rest
  {
    assert all[0] == e && forall i :: 0 <= i < |rest| ==> rest[i] == all[i + 1];
  }

  lemma BelowTopStays(s: System, e: Event, t: int, i: nat)
    requires Loadable(e) && 0 <= t < TERMINALS && i + 1 < |Stack(s, t)| && i + 1 < |Stack(Step(s, e), t)|
    ensures Stack(Step(s, e), t)[i] == Stack(s, t)[i]
  {
  }

  // ----- a pid that is free holds nothing open

  predicate AllFree(table: seq<Desc>) { forall i :: 0 <= i < |table| ==> !table[i].engaged }

  ghost predicate NothingHeld(w: World, s: System) {
    WorldOk(w) && forall p :: 3 <= p < PROCESSES && p !in Used(s) ==> AllFree(w.tables[p])
  }

  /** A pid of the pool that is free after an event was free before, or was just halted. */
  lemma FreeBefore(s: System, e: Event, p: int)
    requires Tree(s) && Loadable(e) && 3 <= p < PROCESSES && p !in Used(Step(s, e))
    ensures p !in Used(s) || (e.Halt? && |Stack(s, s.active)| >= 2 && p == Top(Stack(s, s.active), s.active))
  {
    match e
    case Tick(saved, launch) => TickUsed(s, saved, launch);
    case Execute(image, c) => ExecuteUsed(s, image, c);
    case Halt(c) => HaltUsed(s, c);
  }

  lemma ExecuteUsed(s: System, image: Image, c: Ctx)
    requires Tree(s)
    ensures Used(s) <= Used(DoExecute(s, image, c))
  {
    var stack := Stack(s, s.active);
    if image.Program? && stack != [] && FreePid(s) < PROCESSES {
      PidsPush(stack, Frame(FreePid(s), c));
      ChainUsed(s, stack + [Frame(FreePid(s), c)]);
    } else if image.Program? && stack == [] {
      ChainUsed(s, [Frame(s.active, c)]);
    }
  }

  lemma HaltUsed(s: System, c: Ctx)
    requires Tree(s)
    ensures var stack := Stack(s, s.active);
      Used(s) <= Used(DoHalt(s, c)) + {if |stack| >= 2 then Top(stack, s.active) else s.active}
  {
    var stack := Stack(s, s.active);
    if |stack| >= 2 {
      UsedAfterPop(s);
    } else {
      ChainUsed(s, [Frame(s.active, c)]);
      BaseOnly(stack, s.active);
    }
  }

  /** A new chain for the active terminal changes nothing else. */
  lemma ChainUsed(s: System, stack: seq<Frame>)
    ensures Used(s) <= Used(Chained(s, stack)) + Pids(Stack(s, s.active))
    ensures Pids(Stack(s, s.active)) <= Pids(stack) ==> Used(s) <= Used(Chained(s, stack))
  {
    var s' := Chained(s, stack);
    assert Stack(s', s.active) == stack;
    assert forall u :: 0 <= u < TERMINALS && u != s.active ==> Stack(s', u) == Stack(s, u);
  }

  lemma BaseOnly(stack: seq<Frame>, t: int)
    requires StackOk(stack, t) && |stack| <= 1
    ensures Pids(stack) <= {t}
  {
    if stack != [] {
      assert stack[..0] == [];
    }
  }

  lemma TickUsed(s: System, saved: Ctx, launch: Ctx)
    ensures Used(s) <= Used(DoTick(s, saved, launch))
  {
    var s1 := Parked(s, saved);
    assert forall u :: 0 <= u < TERMINALS ==> Stack(s1, u) == Stack(s, u);
    if Stack(s, 0) != [] && Stack(s, Next(s)) == [] {
      ChainUsed(s1, [Frame(Next(s), launch)]);
    }
  }

  /** The running process is alive or a base shell's pid. */
  lemma RunningIsUsed(k: Data, s: System)
    requires Agrees(k, s)
    ensures Ready(k) && k.active == s.active
    ensures var p := k.ttys[k.active].pid;
      p == Top(Stack(s, s.active), s.active) && 0 <= p < PROCESSES && (p < 3 || p in Used(s))
      && (p >= 3 <==> |Stack(s, s.active)| >= 2)
  {
    AgreesReady(k, s);
    ActiveChain(k, s);
    TtyReady(k, Stack(s, s.active), s.active);
    if Stack(s, s.active) != [] {
      InPids(Stack(s, s.active), |Stack(s, s.active)| - 1);
    }
  }

  lemma StepNothingHeld(w: World, s: System, act: Act)
    requires NothingHeld(w, s) && Agrees(w.k, s) && (act.Sched? ==> Loadable(act.e))
    ensures NothingHeld(StepWorld(w, act), if act.Sched? then Step(s, act.e) else s)
  {
    RunningIsUsed(w.k, s);
    var s' := if act.Sched? then Step(s, act.e) else s;
    var r := StepWorld(w, act);
    forall p | 3 <= p < PROCESSES && p !in Used(s')
      ensures AllFree(r.tables[p])
    {
      if act.Sched? {
        FreeBefore(s, act.e, p);
        FreeTable(w, s, act.e, p);
      }
    }
  }

  /** The table of a pid that an event leaves free. */
  lemma FreeTable(w: World, s: System, e: Event, p: int)
    requires WorldOk(w) && Agrees(w.k, s) && Loadable(e) && Ready(w.k) && 3 <= p < PROCESSES && p !in Used(Step(s, e))
    ensures StepTables(w.k, w.tables, Sched(e))[p] ==
      if p in Used(s) then Closed(w.tables[p]) else w.tables[p]
  {
    match e
    case Tick(_, _) => TickTable(w, s, e, p);
    case Execute(image, c) => ExecuteTable(w, s, image, c, p);
    case Halt(_) =>
      RunningIsUsed(w.k, s);
      FreeBefore(s, e, p);
  }

  lemma TickTable(w: World, s: System, e: Event, p: int)
    requires WorldOk(w) && Agrees(w.k, s) && e.Tick? && Ready(w.k) && 3 <= p < PROCESSES && p !in Used(Step(s, e))
    ensures p !in Used(s) && StepTables(w.k, w.tables, Sched(e))[p] == w.tables[p]
  {
    FreeBefore(s, e, p);
    BootsIff(w.k, s);
    if w.k.ttys[0].init != 0 && Boots(w.k) {
      assert ChainOk(w.k, Stack(s, Next(s)), Next(s));
    }
  }

  lemma ExecuteTable(w: World, s: System, image: Image, c: Ctx, p: int)
    requires WorldOk(w) && Agrees(w.k, s) && Ready(w.k) && 3 <= p < PROCESSES
    requires Loadable(Execute(image, c)) && p !in Used(Step(s, Execute(image, c)))
    ensures p !in Used(s) && StepTables(w.k, w.tables, Sched(Execute(image, c)))[p] == w.tables[p]
  {
    FreeBefore(s, Execute(image, c), p);
    FreeNotStarted(w.k, s, image, c, p);
  }

  lemma FreeNotStarted(k: Data, s: System, image: Image, c: Ctx, p: int)
    requires Agrees(k, s) && Ready(k) && 3 <= p < PROCESSES
    requires Loadable(Execute(image, c)) && p !in Used(Step(s, Execute(image, c)))
    ensures Starts(k, image) != Some(p)
  {
    ExecCases(k, s, c);
    if image.Program? && Stack(s, s.active) != [] && FreePid(s) < PROCESSES {
      TakenIsUsed(s, c);
    }
  }

  /** An execute that takes a free pid has it on a chain afterwards. */
  lemma TakenIsUsed(s: System, c: Ctx)
    requires Stack(s, s.active) != [] && FreePid(s) < PROCESSES
    ensures FreePid(s) in Used(DoExecute(s, Program, c))
  {
    var stack, f := Stack(s, s.active), Frame(FreePid(s), c);
    PidsPush(stack, f);
    assert Stack(DoExecute(s, Program, c), s.active) == stack + [f];
  }

  /** In every run no free pid of the pool holds a descriptor. */
  lemma {:induction false} RunNothingHeld(w: World, s: System, acts: seq<Act>)
    requires NothingHeld(w, s) && Agrees(w.k, s) && AllLoadable(Events(acts))
    ensures NothingHeld(RunWorld(w, acts), Run(s, Events(acts)))
    decreases |acts|
  {
    if acts != [] {
      var act, rest := acts[0], acts[1..];
      AgreesReady(w.k, s);
      if act.Sched? {
        HeadEvent(act.e, Events(rest), Events(acts));
        StepRefines(w.k, s, act.e);
        StepNothingHeld(w, s, act);
        RunNothingHeld(StepWorld(w, act), Step(s, act.e), rest);
      } else {
        assert Events(acts) == Events(rest);
        StepNothingHeld(w, s, act);
        RunNothingHeld(StepWorld(w, act), s, rest);
      }
    }
  }

  // ----- reads while curr_pid is stale

  /** The descriptor a file read takes inode and position from, and the running process's
      own, whose position it moves. */
  ghost function Served(w: World, fd: nat): Desc
    requires WorldOk(w) && IsPid(w.k.currPid) && fd < FILES
  {
    w.tables[w.k.currPid][fd]
  }

  ghost function Own(w: World, fd: nat): Desc
    requires WorldOk(w) && Ready(w.k) && fd < FILES
  {
    w.tables[w.k.ttys[w.k.active].pid][fd]
  }

  ghost predicate OnlyFiles(acts: seq<Act>) { forall i :: 0 <= i < |acts| ==> acts[i].Files? }

  lemma {:induction false} OthersKeepTables(w: World, acts: seq<Act>, p: int)
    requires WorldOk(w) && Ready(w.k) && OnlyFiles(acts) && IsPid(p) && p != w.k.ttys[w.k.active].pid
    ensures RunWorld(w, acts).tables[p] == w.tables[p] && RunWorld(w, acts).k == w.k
    decreases |acts|
  {
    if acts != [] {
      OthersKeepTables(StepWorld(w, acts[0]), acts[1..], p);
    }
  }

  lemma {:induction false} FilesKeepData(w: World, acts: seq<Act>)
    requires WorldOk(w) && OnlyFiles(acts)
    ensures RunWorld(w, acts).k == w.k
    decreases |acts|
  {
    if acts != [] {
      FilesKeepData(StepWorld(w, acts[0]), acts[1..]);
    }
  }

  /** After any run from power-on and any opens, closes and reads of the running process
      since: while the ticks since the last execute or halt are a multiple of three, a read
      is served from the process's own descriptor; otherwise from one that nothing the
      process does can move, so that it is served the same piece again and again. */
  lemma ReadsServedFrom(k: Data, es: seq<Event>, w: World, acts: seq<Act>, fd: nat)
    requires Agrees(k, OFF) && AllLoadable(es) && WorldOk(w) && w.k == RunData(k, es)
    requires OnlyFiles(acts) && fd < FILES
    ensures Ready(w.k) && IsPid(w.k.currPid) && RunWorld(w, acts).k == w.k
    ensures SinceCall(OFF, es) % TERMINALS == 0 ==> Served(RunWorld(w, acts), fd) == Own(RunWorld(w, acts), fd)
    ensures SinceCall(OFF, es) % TERMINALS != 0 ==> Served(RunWorld(w, acts), fd) == Served(w, fd)
  {
    var s := Run(OFF, es);
    assert Agrees(w.k, s) by {
      RunRefines(k, OFF, es);
    }
    AgreesReady(w.k, s);
    CurrPidIsPid(w.k, s);
    CurrPidIsFreshIff(k, es);
    FilesKeepData(w, acts);
    if SinceCall(OFF, es) % TERMINALS != 0 {
      OthersKeepTables(w, acts, w.k.currPid);
    }
  }

  lemma CurrPidIsPid(k: Data, s: System)
    requires Agrees(k, s)
    ensures IsPid(k.currPid)
  {
    if Stack(s, s.owner) != [] {
      PidInRange(s, s.owner, |Stack(s, s.owner)| - 1);
    }
  }

  // ----- the calls

  /** The file part of the running process's control block. */
  class ProcessFiles {
    const table: array<Desc>

    constructor ()
      ensures table.Length == FILES && table[..] == FRESH
      ensures table[0] == Desc(Stdin, 0, 0, true) && table[1] == Desc(Stdout, 0, 0, true)
      ensures forall i :: 2 <= i < 8 ==> table[i] == Desc(Nothing, 0, 0, false)
    {
      table := new Desc[FILES](i requires 0 <= i < FILES => FRESH[i]);
      new;
      assert table[..] == FRESH;
    }

    /** open_call on an existing file: the lowest free descriptor of 2 to 7, or -1 when all
        six are in use. */
    method OpenCall(kind: Kind, inode: int) returns (fd: int)
      requires table.Length == FILES
      modifies table
      ensures table[..] == Apply(old(table[..]), Open(kind, inode))
      ensures fd == -1 <==> forall i :: 2 <= i < FILES ==> old(table[..])[i].engaged
      ensures fd != -1 ==> 2 <= fd == Lowest(old(table[..]), 2)
      ensures fd == -1 ==> table[..] == old(table[..])
      ensures fd != -1 ==>
        && 2 <= fd < 8 && !old(table[..])[fd].engaged && table[fd] == Desc(kind, inode, 0, true)
        && (forall i :: 2 <= i < fd ==> old(table[..])[i].engaged)
        && (forall i :: 0 <= i < 8 && i != fd ==> table[i] == old(table[i]))
    {
      var found := false;
      var idx := 2;
      while idx <= 7 && !found
        invariant 2 <= idx <= FILES
        invariant !found ==> table[..] == old(table[..]) && Lowest(table[..], 2) == Lowest(table[..], idx)
        invariant found ==> 3 <= idx && Lowest(old(table[..]), 2) == idx - 1 < FILES
        invariant found ==> table[..] == Apply(old(table[..]), Open(kind, inode))
      {
        if !table[idx].engaged {
          found := true;
          table[idx] := Desc(kind, inode, 0, true);
        }
        idx := idx + 1;
      }
      if !found {
        return -1;
      }
      return idx - 1;
    }

    /** close_call: the streams and free descriptors are refused. A descriptor of a file whose
        type has no operations is freed too, but then a null operation is called: no result. */
    method CloseCall(fd: int) returns (r: Option<int>)
      requires table.Length == FILES
      modifies table
      ensures table[..] == Apply(old(table[..]), Close(fd))
      ensures forall i :: 0 <= i < 8 && (i != fd || r == Some(-1)) ==> table[i] == old(table[i])
      ensures r != Some(-1) ==> 2 <= fd < 8 && table[fd] == Desc(old(table[..])[fd].kind, 0, 0, false)
      ensures r == Some(-1) <==> !(2 <= fd < FILES && old(table[..])[fd].engaged)
      ensures r == None <==> 2 <= fd < FILES && old(table[..])[fd].engaged && old(table[..])[fd].kind.Nothing?
      ensures r == None || r == Some(-1) || r == Some(0)
    {
      if fd <= 1 || fd >= 8 || !table[fd].engaged {
        return Some(-1);
      }
      table[fd] := table[fd].(inode := NOINODE);
      table[fd] := table[fd].(position := 0);
      table[fd] := table[fd].(engaged := false);
      assert table[..] == old(table[..])[fd := Released(old(table[fd]))];
      return if table[fd].kind.Nothing? then None else Some(0);
    }

    /** halt_call's loop: the table that the halt step leaves the halted process. */
    method CloseAll()
      requires table.Length == FILES
      modifies table
      ensures table[..] == Closed(old(table[..])) && AllFree(table[..])
      ensures forall i :: 0 <= i < 8 ==> table[i] == old(table[i]).(engaged := false)
    {
      var idx := 0;
      while idx < FILES
        invariant 0 <= idx <= FILES
        invariant forall i :: 0 <= i < FILES ==>
          table[i] == if i < idx then old(table[i]).(engaged := false) else old(table[i])
      {
        table[idx] := table[idx].(engaged := false);
        idx := idx + 1;
      }
    }
  }
}
