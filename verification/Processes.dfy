/** The process tree as three stacks of processes, one for each terminal, drawing pids 3,
    4 and 5 from a shared pool, and the round-robin schedule over the terminals. */
module Processes {

  /** A saved esp and ebp; never inspected. */
  datatype Ctx = Ctx(esp: int, ebp: int)

  datatype Option<+T> = None | Some(value: T)

  /** A process and the context its execute call saved for its halt. */
  datatype Frame = Frame(pid: int, launch: Ctx)

  /** `parked` is the context saved when the terminal was last switched out. */
  datatype Term = Term(stack: seq<Frame>, parked: Option<Ctx>)

  /** `owner` is the terminal whose execute or halt last ran. */
  datatype Machine = Machine(terms: seq<Term>, active: int, owner: int)

  type System = m: Machine |
    && |m.terms| == TERMINALS && 0 <= m.active < TERMINALS && 0 <= m.owner < TERMINALS
    witness OFF

  /** Power-on: no shell runs yet. */
  const OFF := Machine([Term([], None), Term([], None), Term([], None)], 0, 0)

  datatype Image =
    | NotProgram  // no such file, or no ELF magic
    | Unloadable  // ELF magic, but a later data block number is out of range
    | Program

  datatype Event =
    | Tick(saved: Ctx, launch: Ctx)
    | Execute(image: Image, launch: Ctx)
    | Halt(relaunch: Ctx)

  const TERMINALS := 3
  const PROCESSES := 6
  const NOBODY := -1
  const POOL := {3, 4, 5}

  function Stack(s: System, t: int): seq<Frame>
    requires 0 <= t < TERMINALS
  {
    s.terms[t].stack
  }

  function Top(stack: seq<Frame>, t: int): int {
    if stack == [] then t else stack[|stack| - 1].pid
  }

  function Pids(stack: seq<Frame>): set<int> {
    if stack == [] then {} else Pids(stack[..|stack| - 1]) + {stack[|stack| - 1].pid}
  }

  lemma {:induction false} InPids(stack: seq<Frame>, i: nat)
    requires i < |stack|
    ensures stack[i].pid in Pids(stack)
  {
    if i < |stack| - 1 {
      InPids(stack[..|stack| - 1], i);
    }
  }

  lemma {:induction false} PidsIndex(stack: seq<Frame>, p: int) returns (i: nat)
    requires p in Pids(stack)
    ensures i < |stack| && stack[i].pid == p
  {
    i := |stack| - 1;
    if stack[i].pid != p {
      i := PidsIndex(stack[..|stack| - 1], p);
    }
  }

  function Used(s: System): set<int>
  {
    Pids(Stack(s, 0)) + Pids(Stack(s, 1)) + Pids(Stack(s, 2))
  }

  /** The lowest pid of the shared pool that is free, 6 if there is none. */
  function FreePid(s: System): (p: int)
    ensures 3 <= p <= PROCESSES
    ensures p < PROCESSES ==> p !in Used(s)
    ensures forall q :: 3 <= q < p ==> q in Used(s)
  {
    var used := Used(s);
    if 3 !in used then 3 else if 4 !in used then 4 else if 5 !in used then 5 else PROCESSES
  }

  /** A stack stands on its terminal's own shell; the rest comes from the pool, each pid once. */
  predicate StackOk(stack: seq<Frame>, t: int) {
    stack != [] ==>
      var front, p := stack[..|stack| - 1], stack[|stack| - 1].pid;
      && StackOk(front, t) && p !in Pids(front)
      && if front == [] then p == t else 3 <= p < PROCESSES
  }

  /** The order in which the three shells come up. */
  predicate BootPhase(s: System)
  {
    && (Stack(s, 0) == [] ==> s.active == 0 && Stack(s, 1) == [])
    && (Stack(s, 1) == [] ==> s.active == 0 && Stack(s, 2) == [])
    && (Stack(s, 2) == [] ==> s.active <= 1 && (Stack(s, 1) != [] ==> s.active == 1))
  }

  predicate Booted(s: System)
  {
    Stack(s, 2) != []
  }

  /** Three chains that share no process. */
  ghost predicate Tree(s: System) {
    && StackOk(Stack(s, 0), 0) && StackOk(Stack(s, 1), 1) && StackOk(Stack(s, 2), 2)
    && Pids(Stack(s, 0)) !! Pids(Stack(s, 1))
    && Pids(Stack(s, 0)) !! Pids(Stack(s, 2))
    && Pids(Stack(s, 1)) !! Pids(Stack(s, 2))
  }

  /** Every other terminal that runs has a saved context. */
  ghost predicate Resumable(s: System) {
    forall t :: 0 <= t < TERMINALS && t != s.active && Stack(s, t) != [] ==> s.terms[t].parked.Some?
  }

  ghost predicate Inv(s: System) {
    BootPhase(s) && Tree(s) && Resumable(s)
  }

  /** The active terminal's chain is replaced, by its own execute or halt. */
  function Chained(s: System, stack: seq<Frame>): System {
    s.(terms := s.terms[s.active := s.terms[s.active].(stack := stack)], owner := s.active)
  }

  function DoExecute(s: System, image: Image, c: Ctx): System {
    var stack := Stack(s, s.active);
    if image.Program? && stack == [] then Chained(s, [Frame(s.active, c)])
    else if image.Program? && FreePid(s) < PROCESSES then Chained(s, stack + [Frame(FreePid(s), c)])
    else s.(owner := s.active)
  }

  function DoHalt(s: System, c: Ctx): System {
    var stack := Stack(s, s.active);
    Chained(s, if |stack| <= 1 then [Frame(s.active, c)] else stack[..|stack| - 1])
  }

  function Next(s: System): int { (s.active + 1) % TERMINALS }

  /** The active terminal is switched out and the next one becomes active. */
  function Parked(s: System, saved: Ctx): System {
    s.(terms := s.terms[s.active := s.terms[s.active].(parked := Some(saved))], active := Next(s))
  }

  function DoTick(s: System, saved: Ctx, launch: Ctx): System {
    if Stack(s, 0) == [] then s
    else
      if Stack(s, Next(s)) != [] then Parked(s, saved)
      else Chained(Parked(s, saved), [Frame(Next(s), launch)])
  }

  lemma PidsPush(stack: seq<Frame>, f: Frame)
    ensures Pids(stack + [f]) == Pids(stack) + {f.pid}
  {
    assert (stack + [f])[..|stack|] == stack;
  }

  lemma PidsBase(t: int, c: Ctx)
    ensures Pids([Frame(t, c)]) == {t} && StackOk([Frame(t, c)], t)
  {
    assert [Frame(t, c)][..0] == [];
  }

  lemma {:induction false} BasePid(stack: seq<Frame>, t: int)
    requires StackOk(stack, t)
    ensures forall p :: p in Pids(stack) ==> p == t || 3 <= p < PROCESSES
    ensures stack != [] ==> t in Pids(stack) && stack[0].pid == t
  {
    if stack != [] {
      BasePid(stack[..|stack| - 1], t);
    }
  }

  lemma NotShared(s: System, t: int, u: int, i: nat, j: nat)
    requires Tree(s) && 0 <= t < TERMINALS && 0 <= u < TERMINALS && t != u
    requires i < |Stack(s, t)| && j < |Stack(s, u)|
    ensures Stack(s, t)[i].pid != Stack(s, u)[j].pid
  {
    InPids(Stack(s, t), i);
    InPids(Stack(s, u), j);
  }

  ghost predicate OnChain(s: System, p: int, t: int, i: nat) {
    0 <= t < TERMINALS && i < |Stack(s, t)| && Stack(s, t)[i].pid == p
  }

  lemma UsedIsOnChain(s: System, p: int)
    ensures p in Used(s) <==> exists t, i :: OnChain(s, p, t, i)
  {
    if p in Used(s) {
      var t := if p in Pids(Stack(s, 0)) then 0 else if p in Pids(Stack(s, 1)) then 1 else 2;
      var i := PidsIndex(Stack(s, t), p);
      assert OnChain(s, p, t, i);
    }
    forall t, i | OnChain(s, p, t, i)
      ensures p in Used(s)
    {
      InPids(Stack(s, t), i);
    }
  }

  /** A new chain for the active terminal stays apart from terminal u's. */
  lemma StaysApart(s: System, stack: seq<Frame>, u: int)
    requires Tree(s) && 0 <= u < TERMINALS && u != s.active
    requires forall p :: p in Pids(stack) ==> p in Pids(Stack(s, s.active)) || p == s.active || p !in Used(s)
    ensures Stack(Chained(s, stack), u) == Stack(s, u) && Pids(stack) !! Pids(Stack(s, u))
  {
    BasePid(Stack(s, u), u);
    forall p | p in Pids(stack)
      ensures p !in Pids(Stack(s, u))
    {
      assert p in Pids(Stack(s, s.active)) ==> p !in Pids(Stack(s, u));
    }
  }

  lemma ChainedKeepsTree(s: System, stack: seq<Frame>)
    requires Tree(s) && StackOk(stack, s.active)
    requires forall p :: p in Pids(stack) ==> p in Pids(Stack(s, s.active)) || p == s.active || p !in Used(s)
    ensures Tree(Chained(s, stack))
  {
    assert Stack(Chained(s, stack), s.active) == stack;
    if s.active != 0 { StaysApart(s, stack, 0); }
    if s.active != 1 { StaysApart(s, stack, 1); }
    if s.active != 2 { StaysApart(s, stack, 2); }
  }

  lemma ExecuteKeepsTree(s: System, image: Image, c: Ctx)
    requires Tree(s)
    ensures Tree(DoExecute(s, image, c))
  {
    var t, stack, f := s.active, Stack(s, s.active), Frame(FreePid(s), c);
    if image.Program? && stack == [] {
      PidsBase(t, c);
      ChainedKeepsTree(s, [Frame(t, c)]);
    } else if image.Program? && FreePid(s) < PROCESSES {
      PidsPush(stack, f);
      assert (stack + [f])[..|stack|] == stack;
      ChainedKeepsTree(s, stack + [f]);
    }
  }

  lemma HaltKeepsTree(s: System, c: Ctx)
    requires Tree(s)
    ensures Tree(DoHalt(s, c))
  {
    var t, stack := s.active, Stack(s, s.active);
    if |stack| <= 1 {
      PidsBase(t, c);
      ChainedKeepsTree(s, [Frame(t, c)]);
    } else {
      ChainedKeepsTree(s, stack[..|stack| - 1]);
    }
  }

  lemma TickKeepsTree(s: System, saved: Ctx, launch: Ctx)
    requires Tree(s)
    ensures Tree(DoTick(s, saved, launch))
  {
    var s' := Parked(s, saved);
    assert forall t :: 0 <= t < TERMINALS ==> Stack(s', t) == Stack(s, t);
    PidsBase(Next(s), launch);
    ChainedKeepsTree(s', [Frame(Next(s), launch)]);
  }

  /** An image whose data blocks cannot all be read is treated in Kernel. */
  predicate Loadable(e: Event) { e.Execute? ==> !e.image.Unloadable? }

  function Step(s: System, e: Event): System
    requires Loadable(e)
  {
    match e
    case Tick(saved, launch) => DoTick(s, saved, launch)
    case Execute(image, c) => DoExecute(s, image, c)
    case Halt(c) => DoHalt(s, c)
  }

  /** An execute of a file that is no program, or with no pid free, changes no terminal and
      no schedule; so does a tick before terminal 0 runs. */
  lemma RefusedChangesNothing(s: System, e: Event)
    requires Loadable(e)
    requires (e.Execute? && !e.image.Program?)
      || (e.Execute? && Stack(s, s.active) != [] && FreePid(s) == PROCESSES)
      || (e.Tick? && Stack(s, 0) == [])
    ensures Step(s, e).terms == s.terms && Step(s, e).active == s.active
  {
  }

  /** A base shell that halts is started again: its terminal runs it and nothing else. */
  lemma BaseShellRestarts(s: System, c: Ctx)
    requires Tree(s) && |Stack(s, s.active)| <= 1
    ensures var r := Step(s, Halt(c));
      && Stack(r, s.active) == [Frame(s.active, c)] && r.active == s.active
      && forall t :: 0 <= t < TERMINALS && t != s.active ==> r.terms[t] == s.terms[t]
  {
  }

  /** An execute touches the active terminal alone, and adds one process on top. */
  lemma ExecutePushes(s: System, c: Ctx)
    requires Stack(s, s.active) == [] || FreePid(s) < PROCESSES
    ensures var r, stack := Step(s, Execute(Program, c)), Stack(s, s.active);
      && Stack(r, s.active) == stack + [Frame(if stack == [] then s.active else FreePid(s), c)]
      && r.active == s.active && r.terms[s.active].parked == s.terms[s.active].parked
      && forall t :: 0 <= t < TERMINALS && t != s.active ==> r.terms[t] == s.terms[t]
  {
  }

  /** Every event keeps the three chains disjoint, each on its own base shell. */
  lemma StepKeepsInv(s: System, e: Event)
    requires Inv(s) && Loadable(e)
    ensures Inv(Step(s, e))
  {
    assert Tree(Step(s, e)) by {
      match e
      case Tick(saved, launch) => TickKeepsTree(s, saved, launch);
      case Execute(image, c) => ExecuteKeepsTree(s, image, c);
      case Halt(c) => HaltKeepsTree(s, c);
    }
    PhaseStep(s, e);
  }

  /** A step's effect on the schedule alone. */
  lemma PhaseStep(s: System, e: Event)
    requires BootPhase(s) && Loadable(e)
    ensures var r, n := Step(s, e), if e.Tick? && Stack(s, 0) != [] then 1 else 0;
      && BootPhase(r) && (Stack(s, 0) != [] ==> Stack(r, 0) != [])
      && r.active == (s.active + n) % TERMINALS
      && (Resumable(s) ==> Resumable(r))
      && ToBoot(r) == if n <= ToBoot(s) then ToBoot(s) - n else 0
  {
  }

  /** Terminals whose shell is still to be started. */
  function ToBoot(s: System): nat {
    if Stack(s, 2) != [] then 0 else if Stack(s, 1) != [] then 1 else 2
  }

  ghost predicate AllLoadable(es: seq<Event>) {
    forall i :: 0 <= i < |es| ==> Loadable(es[i])
  }

  function Run(s: System, es: seq<Event>): System
    requires AllLoadable(es)
    decreases |es|
  {
    if es == [] then s else Run(Step(s, es[0]), es[1..])
  }

  lemma {:induction false} RunKeepsInv(s: System, es: seq<Event>)
    requires Inv(s) && AllLoadable(es)
    ensures Inv(Run(s, es))
    decreases |es|
  {
    if es != [] {
      StepKeepsInv(s, es[0]);
      RunKeepsInv(Step(s, es[0]), es[1..]);
    }
  }

  lemma {:induction false} RunSnoc(s: System, es: seq<Event>, e: Event)
    requires AllLoadable(es + [e])
    ensures AllLoadable(es) && Loadable(e)
    ensures Run(s, es + [e]) == Step(Run(s, es), e)
    decreases |es|
  {
    assert forall i :: 0 <= i < |es| ==> (es + [e])[i] == es[i];
    assert (es + [e])[|es|] == e;
    if es == [] {
      assert [] + [e] == [e];
    } else {
      assert (es + [e])[1..] == es[1..] + [e];
      RunSnoc(Step(s, es[0]), es[1..], e);
    }
  }

  // ----- halt returns to its own execute

  /** The context a halt of the active terminal resumes; none for a base shell. */
  function Resumed(s: System): Option<Ctx> {
    var stack := Stack(s, s.active);
    if |stack| >= 2 then Some(stack[|stack| - 1].launch) else None
  }

  /** Terminal t never drops below h processes. */
  ghost predicate StaysAbove(s: System, es: seq<Event>, t: int, h: nat)
    requires 0 <= t < TERMINALS && AllLoadable(es)
    decreases |es|
  {
    && |Stack(s, t)| >= h
    && (es != [] ==> StaysAbove(Step(s, es[0]), es[1..], t, h))
  }

  lemma {:induction false} LowFramesKept(s: System, es: seq<Event>, t: int, h: nat)
    requires 0 <= t < TERMINALS && 2 <= h && AllLoadable(es)
    requires StaysAbove(s, es, t, h)
    ensures var r := Run(s, es); |Stack(r, t)| >= h && Stack(r, t)[..h] == Stack(s, t)[..h]
    decreases |es|
  {
    if es != [] {
      LowFramesKept(Step(s, es[0]), es[1..], t, h);
      assert Stack(Step(s, es[0]), t)[..h] == Stack(s, t)[..h];
    }
  }

  /** After an execute, a run that never halts below the new process ends with it on top
      of the active terminal again. */
  ghost predicate Balanced(s: System, c: Ctx, es: seq<Event>) {
    var s1, h := Step(s, Execute(Program, c)), |Stack(s, s.active)| + 1;
    && AllLoadable(es) && StaysAbove(s1, es, s.active, h)
    && Run(s1, es).active == s.active && |Stack(Run(s1, es), s.active)| == h
  }

  /** Started on terminal t, halted after any activity on t that never halts below it and
      any activity elsewhere: the halt resumes the context saved by that very execute,
      terminal t's chain is what it was before, and the pid is free again. */
  lemma HaltReturnsToItsExecute(s: System, c: Ctx, es: seq<Event>, relaunch: Ctx)
    requires Inv(s) && Stack(s, s.active) != [] && FreePid(s) < PROCESSES
    requires Balanced(s, c, es)
    ensures var s2 := Run(Step(s, Execute(Program, c)), es);
      var s3 := Step(s2, Halt(relaunch));
      && Top(Stack(s2, s.active), s.active) == FreePid(s)
      && Resumed(s2) == Some(c)
      && Stack(s3, s.active) == Stack(s, s.active)
      && FreePid(s) !in Used(s3)
  {
    var s2 := Run(Step(s, Execute(Program, c)), es);
    var stack := Stack(s, s.active) + [Frame(FreePid(s), c)];
    assert Stack(s2, s.active) == stack by {
      BalancedStack(s, c, es);
    }
    assert Tree(s2) by {
      StepKeepsInv(s, Execute(Program, c));
      RunKeepsInv(Step(s, Execute(Program, c)), es);
    }
    PopOff(s2, stack, relaunch);
    assert stack[..|stack| - 1] == Stack(s, s.active);
  }

  /** The stack at the end of a balanced run is the one right after the execute. */
  lemma BalancedStack(s: System, c: Ctx, es: seq<Event>)
    requires Stack(s, s.active) != [] && FreePid(s) < PROCESSES && Balanced(s, c, es)
    ensures Stack(Run(Step(s, Execute(Program, c)), es), s.active) == Stack(s, s.active) + [Frame(FreePid(s), c)]
  {
    var s1, t := Step(s, Execute(Program, c)), s.active;
    var s2, stack := Run(s1, es), Stack(s, t) + [Frame(FreePid(s), c)];
    assert Stack(s1, t) == stack;
    LowFramesKept(s1, es, t, |stack|);
    assert Stack(s2, t) == Stack(s2, t)[..|stack|] && stack[..|stack|] == stack;
  }

  lemma PopOff(s: System, stack: seq<Frame>, c: Ctx)
    requires Tree(s) && stack == Stack(s, s.active) && |stack| >= 2
    ensures var s', top := Step(s, Halt(c)), stack[|stack| - 1];
      && Top(stack, s.active) == top.pid && Resumed(s) == Some(top.launch)
      && Stack(s', s.active) == stack[..|stack| - 1] && top.pid !in Used(s')
  {
    PopFreesTop(s, c);
  }

  lemma PopFreesTop(s: System, c: Ctx)
    requires Tree(s) && |Stack(s, s.active)| >= 2
    ensures var stack, s' := Stack(s, s.active), Step(s, Halt(c));
      Stack(s', s.active) == stack[..|stack| - 1] && Top(stack, s.active) !in Used(s')
  {
    var stack := Stack(s, s.active);
    InPids(stack, |stack| - 1);
  }

  // ----- contexts survive

  /** The context saved when terminal t was last switched out during the run. */
  function LastOut(s: System, es: seq<Event>, t: int): Option<Ctx>
    requires AllLoadable(es)
    decreases |es|
  {
    if es == [] then None
    else
      var later := LastOut(Step(s, es[0]), es[1..], t);
      if later.Some? then later
      else if es[0].Tick? && s.active == t && Stack(s, 0) != [] then Some(es[0].saved)
      else None
  }

  /** What the next tick loads; none while it still boots a shell. */
  function Loads(s: System): Option<Ctx> {
    if Stack(s, 0) != [] && Stack(s, Next(s)) != [] then s.terms[Next(s)].parked else None
  }

  lemma {:induction false} ParkedIsLastOut(s: System, es: seq<Event>, t: int)
    requires 0 <= t < TERMINALS && AllLoadable(es)
    ensures Run(s, es).terms[t].parked ==
            if LastOut(s, es, t).Some? then LastOut(s, es, t) else s.terms[t].parked
    decreases |es|
  {
    if es != [] {
      ParkedIsLastOut(Step(s, es[0]), es[1..], t);
    }
  }

  /** Context preservation: after any mix of ticks, executes and halts since power-on, a
      tick that resumes a terminal loads exactly what was saved when that terminal was
      last switched out. */
  lemma ContextPreservation(es: seq<Event>)
    requires AllLoadable(es)
    requires Booted(Run(OFF, es))
    ensures var s := Run(OFF, es); Loads(s).Some? && Loads(s) == LastOut(OFF, es, Next(s))
  {
    RunKeepsInv(OFF, es);
    ParkedIsLastOut(OFF, es, Next(Run(OFF, es)));
  }

  // ----- fairness

  function Ticks(es: seq<Event>): (n: nat)
    ensures n <= |es|
    decreases |es|
  {
    if es == [] then 0 else Ticks(es[..|es| - 1]) + if es[|es| - 1].Tick? then 1 else 0
  }

  /** r is n ticks after s. */
  ghost predicate Rotated(s: System, r: System, n: nat) {
    && BootPhase(r) && Stack(r, 0) != []
    && r.active == (s.active + n) % TERMINALS
    && ToBoot(r) == if n <= ToBoot(s) then ToBoot(s) - n else 0
  }

  lemma RotatedStep(s: System, r: System, n: nat, e: Event)
    requires Rotated(s, r, n) && Loadable(e)
    ensures Rotated(s, Step(r, e), n + if e.Tick? then 1 else 0)
  {
    PhaseStep(r, e);
    var m := s.active + n;
    assert (m % TERMINALS + 1) % TERMINALS == (m + 1) % TERMINALS;
  }

  /** Once terminal 0 runs, every tick advances the active terminal by one modulo 3,
      nothing else moves it, and two ticks bring up the remaining shells. */
  lemma {:induction false} RoundRobin(s: System, es: seq<Event>)
    requires BootPhase(s) && Stack(s, 0) != [] && AllLoadable(es)
    ensures Rotated(s, Run(s, es), Ticks(es))
    decreases |es|
  {
    if es != [] {
      var front, e := es[..|es| - 1], es[|es| - 1];
      assert es == front + [e];
      RunSnoc(s, front, e);
      RoundRobin(s, front);
      RotatedStep(s, Run(s, front), Ticks(front), e);
    }
  }

  lemma {:induction false} FindTick(es: seq<Event>, n: nat) returns (i: nat)
    requires 1 <= n <= Ticks(es)
    ensures i < |es| && es[i].Tick? && Ticks(es[..i + 1]) == n
    decreases |es|
  {
    var front := es[..|es| - 1];
    if n <= Ticks(front) {
      i := FindTick(front, n);
      assert front[..i + 1] == es[..i + 1];
    } else {
      i := |es| - 1;
      assert es[..i + 1] == es;
    }
  }

  /** The event at i is a tick that hands the processor to terminal t. */
  ghost predicate ScheduledAt(s: System, es: seq<Event>, t: int, i: nat)
    requires AllLoadable(es)
  {
    i < |es| && es[i].Tick? && Run(s, es[..i + 1]).active == t
  }

  /** In any stretch with three ticks every terminal gets its turn. */
  lemma ThreeTicksScheduleAll(s: System, es: seq<Event>, t: int)
    requires BootPhase(s) && Stack(s, 0) != [] && 0 <= t < TERMINALS
    requires AllLoadable(es) && Ticks(es) >= 3
    ensures exists i :: ScheduledAt(s, es, t, i)
  {
    var n := if t > s.active then t - s.active else t - s.active + TERMINALS;
    var i := FindTick(es, n);
    RoundRobin(s, es[..i + 1]);
    assert ScheduledAt(s, es, t, i);
  }

  // ----- the terminal that ran an execute or a halt last

  /** The ticks since the last execute or halt, a tick that starts a shell being one too. */
  function SinceCall(s: System, es: seq<Event>): nat
    requires AllLoadable(es)
    decreases |es|
  {
    if es == [] then 0
    else
      var front, e := es[..|es| - 1], es[|es| - 1];
      if e.Tick? && Booted(Run(s, front)) then SinceCall(s, front) + 1 else 0
  }

  /** r follows a run in which the last call is n ticks ago. */
  ghost predicate TicksApart(r: System, n: nat) {
    && BootPhase(r) && r.active == (r.owner + n) % TERMINALS
    && (!Booted(r) ==> n == 0)
  }

  lemma TicksApartStep(r: System, n: nat, e: Event)
    requires TicksApart(r, n) && Loadable(e)
    ensures TicksApart(Step(r, e), if e.Tick? && Booted(r) then n + 1 else 0)
  {
    PhaseStep(r, e);
    if e.Tick? && Booted(r) {
      var m := r.owner + n;
      assert Step(r, e) == Parked(r, e.saved);
      assert (m % TERMINALS + 1) % TERMINALS == (m + 1) % TERMINALS;
    }
  }

  /** The terminal that ran the last call lags behind the active one by the ticks since. */
  lemma {:induction false} OwnerLags(s: System, es: seq<Event>)
    requires AllLoadable(es) && TicksApart(s, 0)
    ensures TicksApart(Run(s, es), SinceCall(s, es))
    decreases |es|
  {
    if es != [] {
      var front, e := es[..|es| - 1], es[|es| - 1];
      assert es == front + [e];
      RunSnoc(s, front, e);
      OwnerLags(s, front);
      TicksApartStep(Run(s, front), SinceCall(s, front), e);
    }
  }

  lemma SameOwnerIff(r: System, n: nat)
    requires TicksApart(r, n)
    ensures r.owner == r.active <==> n % TERMINALS == 0
  {
  }

  lemma OneMore(s: System, es: seq<Event>, e: Event, all: seq<Event>)
    requires all == es + [e] && AllLoadable(all)
    ensures AllLoadable(es) && Loadable(e) && Run(s, all) == Step(Run(s, es), e)
    ensures SinceCall(s, all) == if e.Tick? && Booted(Run(s, es)) then SinceCall(s, es) + 1 else 0
  {
    RunSnoc(s, es, e);
    assert all[..|es|] == es;
  }

  lemma BootedAfterTwoTicks(c: Ctx)
    ensures var es := [Execute(Program, c), Tick(c, c), Tick(c, c)];
      AllLoadable(es) && Booted(Run(OFF, es)) && SinceCall(OFF, es) == 0
  {
    var e, t := Execute(Program, c), Tick(c, c);
    OneMore(OFF, [], e, [e]);
    assert UpTo(Run(OFF, [e]), 0);
    OneMore(OFF, [e], t, [e, t]);
    NextShell(Run(OFF, [e]), t);
    OneMore(OFF, [e, t], t, [e, t, t]);
    NextShell(Run(OFF, [e, t]), t);
  }

  /** The shells of terminals 0 to n run, and n is active. */
  ghost predicate UpTo(s: System, n: int) {
    s.active == n && forall t :: 0 <= t < TERMINALS ==> (Stack(s, t) != [] <==> t <= n)
  }

  lemma NextShell(s: System, e: Event)
    requires 0 <= s.active < 2 && UpTo(s, s.active) && e.Tick?
    ensures UpTo(Step(s, e), s.active + 1) && !Booted(s)
  {
    var r := Step(s, e);
    assert r == Chained(Parked(s, e.saved), [Frame(Next(s), e.launch)]);
    forall t | 0 <= t < TERMINALS
      ensures Stack(r, t) == if t == Next(s) then [Frame(t, e.launch)] else Stack(s, t)
    {
    }
  }

  /** The three shells come up, and the first tick after that is one tick from a call. */
  lemma FirstTickAfterBoot(c: Ctx)
    ensures var es := [Execute(Program, c), Tick(c, c), Tick(c, c), Tick(c, c)];
      AllLoadable(es) && Booted(Run(OFF, es)) && SinceCall(OFF, es) == 1
  {
    var e, t := Execute(Program, c), Tick(c, c);
    BootedAfterTwoTicks(c);
    OneMore(OFF, [e, t, t], t, [e, t, t, t]);
  }

  // ----- the shared pool

  lemma {:induction false} PidsCount(stack: seq<Frame>, t: int)
    requires StackOk(stack, t)
    ensures |Pids(stack)| == |stack|
    decreases |stack|
  {
    if stack == [] {
      assert Pids(stack) == {};
    } else {
      var front, p := stack[..|stack| - 1], stack[|stack| - 1].pid;
      PidsCount(front, t);
    }
  }

  /** Processes a terminal has taken from the shared pool. */
  function Borrowed(stack: seq<Frame>): nat { if stack == [] then 0 else |stack| - 1 }

  /** All but the base shell come from the pool. */
  lemma HeldPids(stack: seq<Frame>, t: int)
    requires StackOk(stack, t) && 0 <= t < TERMINALS && stack != []
    ensures Pids(stack) * POOL == Pids(stack) - {t} && t in Pids(stack)
  {
    BasePid(stack, t);
    assert t !in POOL;
    forall p | p in Pids(stack) && p != t
      ensures p in POOL
    {
      assert p == 3 || p == 4 || p == 5;
    }
  }

  lemma BorrowedPids(stack: seq<Frame>, t: int)
    requires StackOk(stack, t) && 0 <= t < TERMINALS
    ensures |Pids(stack) * POOL| == Borrowed(stack)
  {
    if stack == [] {
      assert Pids(stack) * POOL == {};
    } else {
      PidsCount(stack, t);
      HeldPids(stack, t);
      WithoutOne(Pids(stack), t);
    }
  }

  lemma WithoutOne(s: set<int>, x: int)
    requires x in s
    ensures |s - {x}| == |s| - 1
  {
  }

  /** Conservation: the three terminals together never hold more than the three shared
      pids, and an execute finds none free exactly when they hold all three. */
  lemma PoolConservation(s: System)
    requires Inv(s)
    ensures var n := Borrowed(Stack(s, 0)) + Borrowed(Stack(s, 1)) + Borrowed(Stack(s, 2));
      n <= 3 && (FreePid(s) == PROCESSES <==> n == 3)
  {
    BorrowedPids(Stack(s, 0), 0); BorrowedPids(Stack(s, 1), 1); BorrowedPids(Stack(s, 2), 2);
    PoolFull(Pids(Stack(s, 0)), Pids(Stack(s, 1)), Pids(Stack(s, 2)));
    NoneFree(s);
  }

  lemma NoneFree(s: System)
    ensures FreePid(s) == PROCESSES <==> POOL <= Used(s)
  {
  }

  lemma PoolFull(a: set<int>, b: set<int>, c: set<int>)
    requires a !! b !! c
    ensures |a * POOL| + |b * POOL| + |c * POOL| <= 3
    ensures |a * POOL| + |b * POOL| + |c * POOL| == 3 <==> POOL <= a + b + c
  {
    DisjointParts(a * POOL, b * POOL, c * POOL, POOL);
    assert |POOL| == 3;
    assert POOL <= a * POOL + b * POOL + c * POOL <==> POOL <= a + b + c;
  }

  lemma DisjointParts(a: set<int>, b: set<int>, c: set<int>, pool: set<int>)
    requires a <= pool && b <= pool && c <= pool && a !! b !! c
    ensures |a| + |b| + |c| <= |pool|
    ensures |a| + |b| + |c| == |pool| <==> pool <= a + b + c
  {
    var held := a + b + c;
    assert |held| == |a + b| + |c| == |a| + |b| + |c|;
    assert held + (pool - held) == pool;
    assert |pool| == |held| + |pool - held|;
  }
}
