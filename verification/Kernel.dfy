/** The kernel's own data behind the process tree: pid_array, the process control blocks,
    the terminal structs, and the maps that must name the running process. */
module Kernel {
  import opened Processes
  import Console
  import Screen

  const KB := 1024
  const MB := 1024 * KB
  const VIDEO := 0xB8000
  const USER_FLAGS := 0x87   // present, writable, user, 4 MB page
  const VIDEO_FLAGS := 0x07  // present, writable, user

  datatype Pcb = Pcb(processId: int, parent: int, terminalOn: int, task: Ctx, active: Ctx)

  datatype Tty = Tty(pid: int, parentpid: int, init: int)

  /** The address bits of a page directory and of a page table entry. */
  function Mask10(x: int): int { x / (4 * MB) * (4 * MB) }

  function Mask20(x: int): int { x / (4 * KB) * (4 * KB) }

  function PcbAddr(pid: int): int { 8 * MB - (pid + 1) * 8 * KB }

  function KernelStackAddr(pid: int): int { 8 * MB - (pid + 1) * 8 * KB - 4 }

  /** Page directory entry for the user program at 128 MB. */
  function UserEntry(pid: int): int { Mask10(4 * MB * pid + 8 * MB) + USER_FLAGS }

  /** User video page: the screen itself if the terminal is displayed, else its backing page. */
  function VideoEntry(t: int, displayed: int): int {
    Mask20(if t == displayed then VIDEO else VIDEO + (t + 1) * 4 * KB) + VIDEO_FLAGS
  }

  /** The addresses and entries as numbers: 4 MB user frames from 8 MB on, present, user and
      writable; kernel stacks and control blocks of 8 KB down from 8 MB; the screen, or the
      4 KB pages behind it. */
  lemma AddressesAre(p: int, t: int, displayed: int)
    requires IsPid(p) && 0 <= t < 3
    ensures UserEntry(p) == 0x80_0087 + 0x40_0000 * p
    ensures PcbAddr(p) == 0x7F_E000 - 0x2000 * p && KernelStackAddr(p) == 0x7F_DFFC - 0x2000 * p
    ensures VideoEntry(t, displayed) == if t == displayed then 0xB_8007 else 0xB_9007 + 0x1000 * t
  {
  }

  // ----- processes and terminals are kept apart in memory

  predicate IsPid(p: int) { 0 <= p < PROCESSES }

  /** The physical addresses an entry of 4 MB, or of 4 KB, maps. */
  predicate MappedBy(entry: int, size: int, a: int)
    requires 0 < size
  {
    entry / size == a / size
  }

  const PCB_SIZE := 304

  /** Physical address a is process p's own kernel memory: its control block, and below it
      its stack, down to the next pid's control block. */
  predicate Owns(p: int, a: int) { PcbAddr(p + 1) + PCB_SIZE <= a < PcbAddr(p) + PCB_SIZE }

  /** Two processes share no byte of user memory and no byte of kernel memory, and no user
      memory meets the kernel's 4 MB page, which holds all of the latter. */
  lemma ProcessMemoryApart(p: int, q: int, a: int)
    requires IsPid(p) && IsPid(q)
    ensures MappedBy(UserEntry(p), 4 * MB, a) && MappedBy(UserEntry(q), 4 * MB, a) ==> p == q
    ensures Owns(p, a) && Owns(q, a) ==> p == q
    ensures MappedBy(UserEntry(p), 4 * MB, a) ==> !Owns(q, a)
    ensures Owns(p, a) ==> 4 * MB <= a < 8 * MB
  {
    assert UserEntry(p) / (4 * MB) == p + 2 && UserEntry(q) / (4 * MB) == q + 2;
    assert Owns(q, a) ==> a / (4 * MB) == 1;
  }

  /** The kernel stack of process p starts just below its control block, and a push of n
      bytes in all stays in p's own memory exactly for n up to 7884. */
  lemma StackRoom(p: int, n: nat)
    requires IsPid(p)
    ensures KernelStackAddr(p) == PcbAddr(p) - 4
    ensures (forall a :: KernelStackAddr(p) - n <= a < KernelStackAddr(p) ==> Owns(p, a)) <==>
            n <= 8 * KB - 4 - PCB_SIZE
  {
    if n > 8 * KB - 4 - PCB_SIZE {
      assert !Owns(p, KernelStackAddr(p) - n);
    }
  }

  /** Where the page a terminal's user program draws on starts. */
  function VideoBase(t: int, displayed: int): int {
    VIDEO + 2 * if t == displayed then 0 else Console.Backing(t)
  }

  /** A user program draws on exactly the page that holds its terminal's logical screen. */
  lemma DrawsOnOwnScreen(t: int, displayed: int, a: int)
    requires 0 <= t < TERMINALS && 0 <= displayed < TERMINALS
    ensures MappedBy(VideoEntry(t, displayed), 4 * KB, a) <==>
            VideoBase(t, displayed) <= a < VideoBase(t, displayed) + 2 * Screen.PAGE
  {
    var n := if t == displayed then 184 else 185 + t;
    assert VIDEO == 184 * (4 * KB);
    assert VideoEntry(t, displayed) / (4 * KB) == n && VideoBase(t, displayed) == n * (4 * KB);
  }

  /** The user video pages of two terminals share no byte, whichever is displayed. */
  lemma VideoPagesApart(t: int, u: int, displayed: int, a: int)
    requires 0 <= t < TERMINALS && 0 <= u < TERMINALS && 0 <= displayed < TERMINALS && t != u
    ensures !(MappedBy(VideoEntry(t, displayed), 4 * KB, a) && MappedBy(VideoEntry(u, displayed), 4 * KB, a))
  {
    DrawsOnOwnScreen(t, displayed, a);
    DrawsOnOwnScreen(u, displayed, a);
  }

  datatype Data = Data(
    pids: seq<int>, pcbs: seq<Pcb>, ttys: seq<Tty>, currPid: int, active: int,
    initCount: int, userPage: int, esp0: int)

  ghost predicate Shaped(k: Data) {
    |k.pids| == PROCESSES && |k.pcbs| == PROCESSES && |k.ttys| == TERMINALS
  }

  /** The parent of a process started on top of `stack`. */
  function ParentOf(stack: seq<Frame>): int {
    if stack == [] then NOBODY else stack[|stack| - 1].pid
  }

  /** The control blocks of terminal t's chain hold its frames. */
  ghost predicate FramesOk(pcbs: seq<Pcb>, stack: seq<Frame>, t: int) {
    stack != [] ==>
      var front, f := stack[..|stack| - 1], stack[|stack| - 1];
      && FramesOk(pcbs, front, t)
      && 0 <= f.pid < |pcbs|
      && var pcb := pcbs[f.pid];
        && pcb.processId == f.pid && pcb.terminalOn == t
        && pcb.parent == ParentOf(front) && pcb.task == f.launch
  }

  ghost predicate TtyOk(tty: Tty, stack: seq<Frame>, t: int) {
    && tty.init == (if stack == [] then 0 else 1)
    && tty.pid == Top(stack, t)
    && (stack != [] ==> tty.parentpid == ParentOf(stack[..|stack| - 1]))
  }

  ghost predicate ChainOk(k: Data, stack: seq<Frame>, t: int)
    requires Shaped(k) && 0 <= t < TERMINALS
  {
    TtyOk(k.ttys[t], stack, t) && FramesOk(k.pcbs, stack, t)
  }

  /** A pid outside every chain has no control block of its own. */
  ghost predicate PoolOk(k: Data, s: System)
    requires Shaped(k)
  {
    && (forall p :: 0 <= p < 3 ==> k.pids[p] == 1)
    && (forall p :: 3 <= p < PROCESSES ==> k.pids[p] == if p in Used(s) then 1 else 0)
    && (forall p :: 3 <= p < PROCESSES && p !in Used(s) ==>
          k.pcbs[p].processId != p || k.pcbs[p].terminalOn == NOBODY)
  }

  ghost predicate ParkedOk(k: Data, s: System)
    requires Shaped(k)
  {
    forall t :: 0 <= t < TERMINALS && t != s.active && Stack(s, t) != [] ==>
      var p := Top(Stack(s, t), t);
      0 <= p < PROCESSES && Some(k.pcbs[p].active) == s.terms[t].parked
  }

  /** The page directory, the task segment and curr_pid follow the schedule. */
  ghost predicate MapsOk(k: Data, s: System)
  {
    && (Stack(s, s.active) != [] ==>
          var p := Top(Stack(s, s.active), s.active);
          k.userPage == UserEntry(p) && k.esp0 == KernelStackAddr(p))
    && k.currPid == Top(Stack(s, s.owner), s.owner)
    && k.initCount == 2 - ToBoot(s)
  }

  ghost predicate TreeOk(k: Data, s: System) {
    && Shaped(k) && Tree(s) && k.active == s.active
    && ChainOk(k, Stack(s, 0), 0) && ChainOk(k, Stack(s, 1), 1) && ChainOk(k, Stack(s, 2), 2)
    && PoolOk(k, s) && ParkedOk(k, s)
  }

  /** The kernel's data stand for the three stacks of s. */
  ghost predicate Agrees(k: Data, s: System) {
    Inv(s) && TreeOk(k, s) && MapsOk(k, s)
  }

  // ----- what the data say about the tree

  /** The i-th ancestor of p by parent_process_id. */
  function Ancestor(k: Data, p: int, i: nat): int {
    if i == 0 then p
    else
      var q := Ancestor(k, p, i - 1);
      if 0 <= q < |k.pcbs| then k.pcbs[q].parent else NOBODY
  }

  /** Following parent_process_id from a terminal's pid walks down its chain: it ends at
      the terminal's own shell, whose parent is nobody. */
  lemma ParentChain(k: Data, s: System, t: int, i: nat)
    requires Agrees(k, s) && 0 <= t < TERMINALS && i <= |Stack(s, t)| && Stack(s, t) != []
    ensures var stack := Stack(s, t);
      Ancestor(k, k.ttys[t].pid, i) ==
      if i == |stack| then NOBODY else stack[|stack| - 1 - i].pid
    ensures Ancestor(k, k.ttys[t].pid, |Stack(s, t)| - 1) == t
  {
    var stack := Stack(s, t);
    assert ChainOk(k, stack, t) && StackOk(stack, t);
    ChainWalk(k, stack, t, i);
    ChainWalk(k, stack, t, |stack| - 1);
    BasePid(stack, t);
  }

  lemma {:induction false} ChainWalk(k: Data, stack: seq<Frame>, t: int, i: nat)
    requires FramesOk(k.pcbs, stack, t) && stack != [] && i <= |stack|
    ensures Ancestor(k, Top(stack, t), i) ==
            if i == |stack| then NOBODY else stack[|stack| - 1 - i].pid
    decreases |stack|
  {
    var front := stack[..|stack| - 1];
    if i > 0 {
      AncestorStep(k, Top(stack, t), i);
      if front != [] {
        ChainWalk(k, front, t, i - 1);
      } else {
        assert i == 1;
      }
    }
  }

  lemma {:induction false} AncestorStep(k: Data, p: int, i: nat)
    requires 0 < i && 0 <= p < |k.pcbs|
    ensures Ancestor(k, p, i) == Ancestor(k, k.pcbs[p].parent, i - 1)
    decreases i
  {
    if i > 1 {
      AncestorStep(k, p, i - 1);
    }
  }

  /** The chains of two terminals share no process. */
  lemma ChainsDisjoint(k: Data, s: System, t: int, u: int, i: nat, j: nat)
    requires Agrees(k, s) && 0 <= t < TERMINALS && 0 <= u < TERMINALS && t != u
    requires i < |Stack(s, t)| && j < |Stack(s, u)|
    ensures Ancestor(k, k.ttys[t].pid, i) != Ancestor(k, k.ttys[u].pid, j)
  {
    var p, q := Stack(s, t)[|Stack(s, t)| - 1 - i].pid, Stack(s, u)[|Stack(s, u)| - 1 - j].pid;
    assert p != q by {
      NotShared(s, t, u, |Stack(s, t)| - 1 - i, |Stack(s, u)| - 1 - j);
    }
    assert Ancestor(k, k.ttys[t].pid, i) == p by {
      ParentChain(k, s, t, i);
    }
    assert Ancestor(k, k.ttys[u].pid, j) == q by {
      ParentChain(k, s, u, j);
    }
  }

  /** pid_array marks exactly the pids on some chain. */
  lemma PidArrayIsChains(k: Data, s: System, p: int)
    requires Agrees(k, s) && 3 <= p < PROCESSES
    ensures k.pids[p] == 1 <==>
            exists t, i :: OnChain(s, p, t, i)
  {
    UsedIsOnChain(s, p);
  }

  lemma OwnPidIff(k: Data, s: System)
    requires Agrees(k, s) && Booted(s)
    ensures k.currPid == k.ttys[k.active].pid <==> s.owner == s.active
  {
    var p, q := Top(Stack(s, s.owner), s.owner), Top(Stack(s, s.active), s.active);
    assert k.ttys[s.active].pid == q by {
      assert ChainOk(k, Stack(s, s.active), s.active);
    }
    assert s.owner != s.active ==> p != q by {
      if s.owner != s.active {
        NotShared(s, s.owner, s.active, |Stack(s, s.owner)| - 1, |Stack(s, s.active)| - 1);
      }
    }
  }

  /** Any two processes alive, on one terminal or on two, have memory of their own. */
  lemma LiveProcessesApart(k: Data, s: System, t: int, u: int, i: nat, j: nat, a: int)
    requires Agrees(k, s) && 0 <= t < TERMINALS && 0 <= u < TERMINALS
    requires i < |Stack(s, t)| && j < |Stack(s, u)| && (t != u || i != j)
    ensures var p, q := Stack(s, t)[i].pid, Stack(s, u)[j].pid;
      && IsPid(p) && IsPid(q)
      && !(MappedBy(UserEntry(p), 4 * MB, a) && MappedBy(UserEntry(q), 4 * MB, a))
      && !(Owns(p, a) && Owns(q, a))
  {
    var p, q := Stack(s, t)[i].pid, Stack(s, u)[j].pid;
    assert p != q by {
      if t != u {
        NotShared(s, t, u, i, j);
      } else {
        assert StackOk(Stack(s, t), t);
        PidsOnce(Stack(s, t), t, i, j);
      }
    }
    PidInRange(s, t, i);
    PidInRange(s, u, j);
    ProcessMemoryApart(p, q, a);
  }

  lemma PidInRange(s: System, t: int, i: nat)
    requires Tree(s) && 0 <= t < TERMINALS && i < |Stack(s, t)|
    ensures IsPid(Stack(s, t)[i].pid)
  {
    assert StackOk(Stack(s, t), t);
    BasePid(Stack(s, t), t);
    InPids(Stack(s, t), i);
  }

  lemma {:induction false} PidsOnce(stack: seq<Frame>, t: int, i: nat, j: nat)
    requires StackOk(stack, t) && i < |stack| && j < |stack| && i != j
    ensures stack[i].pid != stack[j].pid
    decreases |stack|
  {
    var front := stack[..|stack| - 1];
    if i < |front| && j < |front| {
      PidsOnce(front, t, i, j);
    } else {
      InPids(front, if i < j then i else j);
    }
  }

  /** The running process's control block names the active terminal: there its output goes. */
  lemma OutputGoesToActive(k: Data, s: System)
    requires Agrees(k, s) && Stack(s, s.active) != []
    ensures var p := k.ttys[k.active].pid; IsPid(p) && k.pcbs[p].terminalOn == k.active
  {
    assert ChainOk(k, Stack(s, s.active), s.active);
    PidInRange(s, s.active, |Stack(s, s.active)| - 1);
  }

  // ----- the three calls, on the data

  /** A call can run: every pid it follows names a control block. */
  ghost predicate Ready(k: Data) {
    && Shaped(k) && 0 <= k.active < TERMINALS
    && (forall t :: 0 <= t < TERMINALS ==> 0 <= k.ttys[t].pid < PROCESSES)
    && (forall t :: 0 <= t < TERMINALS && k.ttys[t].pid >= 3 ==>
          && 0 <= k.ttys[t].parentpid < PROCESSES
          && 0 <= k.pcbs[k.ttys[t].pid].processId < PROCESSES)
  }

  function FirstFree(pids: seq<int>, from: nat): (p: nat)
    requires |pids| == PROCESSES && from <= PROCESSES
    ensures from <= p <= PROCESSES
    ensures p < PROCESSES ==> pids[p] == 0
    ensures forall q :: from <= q < p ==> pids[q] != 0
    decreases PROCESSES - from
  {
    if from == PROCESSES || pids[from] == 0 then from else FirstFree(pids, from + 1)
  }

  /** Process p is entered in the tree below `parent` and its context saved. */
  function Started(k: Data, p: int, parent: int, c: Ctx): Data
    requires Shaped(k) && 0 <= k.active < TERMINALS && 0 <= p < PROCESSES
  {
    k.(pcbs := k.pcbs[p := Pcb(p, parent, k.active, c, k.pcbs[p].active)],
       ttys := k.ttys[k.active := k.ttys[k.active].(parentpid := parent)],
       esp0 := KernelStackAddr(p))
  }

  /** A free pid is taken and the page mapped, before the image is read. */
  function Taken(k: Data, p: int): Data
    requires Shaped(k) && 0 <= k.active < TERMINALS && 0 <= p < PROCESSES
  {
    k.(pids := k.pids[p := 1], currPid := p, userPage := UserEntry(p),
       ttys := k.ttys[k.active := k.ttys[k.active].(pid := p)])
  }

  function ExecData(k: Data, image: Image, c: Ctx): Data
    requires Ready(k)
  {
    var tty := k.ttys[k.active];
    var k0 := k.(currPid := tty.pid);
    if image.NotProgram? then k0
    else if tty.init == 0 then
      var k1 := k0.(ttys := k.ttys[k.active := Tty(tty.pid, NOBODY, 1)], userPage := UserEntry(tty.pid));
      if image.Unloadable? then k1
      else Started(k1, tty.pid, if tty.pid < 3 then NOBODY else tty.pid, c)
    else
      var p := FirstFree(k.pids, 3);
      if p == PROCESSES then k0
      else if image.Unloadable? then Taken(k0, p)
      else Started(Taken(k0, p), p, tty.pid, c)
  }

  function Unwound(k: Data): Data
    requires Ready(k) && k.ttys[k.active].pid >= 3
  {
    var tty := k.ttys[k.active];
    var parent := tty.parentpid;
    k.(pids := k.pids[k.pcbs[tty.pid].processId := 0],
       pcbs := k.pcbs[tty.pid := k.pcbs[tty.pid].(terminalOn := NOBODY)],
       ttys := k.ttys[k.active := tty.(pid := parent, parentpid := k.pcbs[parent].parent)],
       currPid := parent, userPage := UserEntry(parent), esp0 := KernelStackAddr(parent))
  }

  function HaltData(k: Data, c: Ctx): Data
    requires Ready(k)
  {
    if k.ttys[k.active].pid < 3 then
      ExecData(k.(currPid := k.active, ttys := k.ttys[k.active := Tty(k.active, NOBODY, 0)]), Program, c)
    else Unwound(k)
  }

  /** The running process's context is saved and the next terminal becomes active. */
  function SwitchedOut(k: Data, saved: Ctx): Data
    requires Ready(k)
  {
    var p := k.ttys[k.active].pid;
    k.(pcbs := k.pcbs[p := k.pcbs[p].(active := saved)], active := (k.active + 1) % TERMINALS)
  }

  /** Whether the tick has to start the next terminal's shell. */
  predicate Boots(k: Data)
    requires Shaped(k)
  {
    && k.ttys[0].init == 1 && k.ttys[2].init == 0
    && ((k.ttys[1].init == 0 && k.initCount == 0) || (k.ttys[1].init == 1 && k.initCount == 1))
  }

  function TickData(k: Data, saved: Ctx, launch: Ctx): Data
    requires Ready(k)
  {
    if k.ttys[0].init == 0 then k
    else if Boots(k) then ExecData(SwitchedOut(k, saved).(initCount := k.initCount + 1), Program, launch)
    else
      var k' := SwitchedOut(k, saved);
      var p := k'.ttys[k'.active].pid;
      k'.(userPage := UserEntry(p), esp0 := KernelStackAddr(p))
  }

  // ----- and on the stacks

  lemma AgreesReady(k: Data, s: System)
    requires TreeOk(k, s)
    ensures Ready(k)
  {
    TtyReady(k, Stack(s, 0), 0);
    TtyReady(k, Stack(s, 1), 1);
    TtyReady(k, Stack(s, 2), 2);
  }

  lemma TtyReady(k: Data, stack: seq<Frame>, t: int)
    requires Shaped(k) && 0 <= t < TERMINALS && ChainOk(k, stack, t) && StackOk(stack, t)
    ensures var tty := k.ttys[t];
      && 0 <= tty.pid < PROCESSES
      && (tty.pid >= 3 <==> |stack| >= 2)
      && (tty.pid >= 3 ==> 0 <= tty.parentpid < PROCESSES && k.pcbs[tty.pid].processId == tty.pid)
  {
    if stack != [] {
      BasePid(stack, t);
      assert |stack| == 1 ==> stack[..0] == [];
    }
  }

  lemma {:induction false} FramesKept(pcbs: seq<Pcb>, pcbs': seq<Pcb>, stack: seq<Frame>, t: int)
    requires FramesOk(pcbs, stack, t) && |pcbs'| == |pcbs|
    requires forall p :: p in Pids(stack) && 0 <= p < |pcbs| ==> pcbs'[p].(active := pcbs[p].active) == pcbs[p]
    ensures FramesOk(pcbs', stack, t)
    decreases |stack|
  {
    if stack != [] {
      FramesKept(pcbs, pcbs', stack[..|stack| - 1], t);
    }
  }

  lemma TopInPids(stack: seq<Frame>, t: int)
    requires stack != []
    ensures Top(stack, t) in Pids(stack)
  {
    InPids(stack, |stack| - 1);
  }

  /** Giving the active terminal a new chain, in the data and in the stacks. */
  lemma NewChain(k: Data, s: System, k': Data, stack: seq<Frame>)
    requires TreeOk(k, s) && Shaped(k') && k'.active == k.active
    requires StackOk(stack, s.active) && ChainOk(k', stack, s.active)
    requires forall p :: p in Pids(stack) ==> p in Pids(Stack(s, s.active)) || p == s.active || p !in Used(s)
    requires forall t :: 0 <= t < TERMINALS && t != k.active ==> k'.ttys[t] == k.ttys[t]
    requires forall p :: 0 <= p < PROCESSES && p !in Pids(stack) && p !in Pids(Stack(s, s.active)) ==>
      k'.pcbs[p] == k.pcbs[p]
    requires PoolOk(k', Chained(s, stack))
    ensures TreeOk(k', Chained(s, stack))
  {
    var s' := Chained(s, stack);
    assert Tree(s') by {
      ChainedKeepsTree(s, stack);
    }
    assert Stack(s', s.active) == stack;
    forall t | 0 <= t < TERMINALS && t != s.active
      ensures OthersOk(k', s', t)
    {
      OtherChain(k, k', s, s', t);
    }
    ChainsOk(k', s');
  }

  /** Terminal t's chain and, while it waits, its saved context. */
  ghost predicate OthersOk(k: Data, s: System, t: int)
    requires Shaped(k) && 0 <= t < TERMINALS
  {
    && ChainOk(k, Stack(s, t), t)
    && (Stack(s, t) != [] ==>
          var p := Top(Stack(s, t), t); 0 <= p < PROCESSES && Some(k.pcbs[p].active) == s.terms[t].parked)
  }

  lemma ChainsOk(k: Data, s: System)
    requires Shaped(k) && ChainOk(k, Stack(s, s.active), s.active)
    requires forall t :: 0 <= t < TERMINALS && t != s.active ==> OthersOk(k, s, t)
    ensures ChainOk(k, Stack(s, 0), 0) && ChainOk(k, Stack(s, 1), 1) && ChainOk(k, Stack(s, 2), 2)
    ensures ParkedOk(k, s)
  {
    assert s.active != 0 ==> OthersOk(k, s, 0);
    assert s.active != 1 ==> OthersOk(k, s, 1);
    assert s.active != 2 ==> OthersOk(k, s, 2);
  }

  lemma OtherChain(k: Data, k': Data, s: System, s': System, t: int)
    requires TreeOk(k, s) && Tree(s') && Shaped(k') && 0 <= t < TERMINALS && t != s.active
    requires s'.active == s.active && s'.terms[t] == s.terms[t] && k'.ttys[t] == k.ttys[t]
    requires forall p :: 0 <= p < PROCESSES && p !in Pids(Stack(s', s.active)) && p !in Pids(Stack(s, s.active)) ==>
      k'.pcbs[p] == k.pcbs[p]
    ensures OthersOk(k', s', t)
  {
    var stack := Stack(s, t);
    assert ChainOk(k, stack, t) && StackOk(stack, t);
    forall p | p in Pids(stack) && 0 <= p < PROCESSES
      ensures k'.pcbs[p] == k.pcbs[p]
    {
      assert p !in Pids(Stack(s, s.active)) && p !in Pids(Stack(s', s.active));
    }
    FramesKept(k.pcbs, k'.pcbs, stack, t);
    if stack != [] {
      TopInPids(stack, t);
    }
  }

  lemma FirstFreeIsFreePid(k: Data, s: System)
    requires Shaped(k) && PoolOk(k, s)
    ensures FirstFree(k.pids, 3) == FreePid(s)
  {
    var p, q := FirstFree(k.pids, 3), FreePid(s);
    assert p < PROCESSES ==> k.pids[p] == 0;
    assert q < PROCESSES ==> k.pids[q] == 0;
  }

  lemma PushedChain(pcbs: seq<Pcb>, pcbs': seq<Pcb>, stack: seq<Frame>, t: int, f: Frame)
    requires FramesOk(pcbs, stack, t) && f.pid !in Pids(stack) && 0 <= f.pid < |pcbs|
    requires pcbs' == pcbs[f.pid := Pcb(f.pid, ParentOf(stack), t, f.launch, pcbs[f.pid].active)]
    ensures FramesOk(pcbs', stack + [f], t)
  {
    FramesKept(pcbs, pcbs', stack, t);
    assert (stack + [f])[..|stack|] == stack;
  }

  lemma PushedPool(k: Data, s: System, k': Data, f: Frame)
    requires Shaped(k) && PoolOk(k, s) && Shaped(k')
    requires (0 <= f.pid < 3 || f.pid == FreePid(s)) && f.pid < PROCESSES
    requires k'.pids == k.pids[f.pid := 1]
    requires forall p :: 0 <= p < PROCESSES && p != f.pid ==> k'.pcbs[p] == k.pcbs[p]
    ensures PoolOk(k', Chained(s, Stack(s, s.active) + [f]))
  {
    var s' := Chained(s, Stack(s, s.active) + [f]);
    assert Used(s') == Used(s) + {f.pid} by {
      PidsPush(Stack(s, s.active), f);
      assert forall u :: 0 <= u < TERMINALS && u != s.active ==> Stack(s', u) == Stack(s, u);
    }
  }

  /** The pid an execute gives its process, and that process's parent. */
  ghost predicate NewProcess(s: System, p: int, parent: int) {
    var stack := Stack(s, s.active);
    parent == ParentOf(stack) && p == if stack == [] then s.active else FreePid(s)
  }

  lemma PushedStack(s: System, f: Frame)
    requires Tree(s) && f.pid < PROCESSES && NewProcess(s, f.pid, ParentOf(Stack(s, s.active)))
    ensures StackOk(Stack(s, s.active) + [f], s.active)
    ensures f.pid !in Used(s) && (0 <= f.pid < 3 || f.pid == FreePid(s))
    ensures Pids(Stack(s, s.active) + [f]) == Pids(Stack(s, s.active)) + {f.pid}
  {
    var stack := Stack(s, s.active);
    PidsPush(stack, f);
    assert (stack + [f])[..|stack|] == stack;
    BasePid(Stack(s, 0), 0); BasePid(Stack(s, 1), 1); BasePid(Stack(s, 2), 2);
  }

  /** Pushing a process that `Started` has entered. */
  lemma PushAgrees(k: Data, s: System, k1: Data, p: int, parent: int, c: Ctx)
    requires TreeOk(k, s) && Shaped(k1) && k1.active == k.active
    requires NewProcess(s, p, parent) && p < PROCESSES
    requires k1.pcbs == k.pcbs && k1.pids == k.pids[p := 1]
    requires k1.ttys[k.active].pid == p && k1.ttys[k.active].init == 1
    requires forall t :: 0 <= t < TERMINALS && t != k.active ==> k1.ttys[t] == k.ttys[t]
    ensures TreeOk(Started(k1, p, parent, c), Chained(s, Stack(s, s.active) + [Frame(p, c)]))
  {
    var t, stack, f := s.active, Stack(s, s.active), Frame(p, c);
    var k', stack' := Started(k1, p, parent, c), stack + [f];
    PushedStack(s, f);
    assert ChainOk(k', stack', t) by {
      assert ChainOk(k, stack, t);
      PushedChain(k.pcbs, k'.pcbs, stack, t, f);
      assert stack'[..|stack|] == stack;
    }
    PushedPool(k, s, k', f);
    NewChain(k, s, k', stack');
  }

  /** What a successful execute leaves behind, data and stacks side by side. */
  lemma ExecCases(k: Data, s: System, c: Ctx)
    requires TreeOk(k, s)
    ensures Ready(k) && FirstFree(k.pids, 3) == FreePid(s)
    ensures var t, stack, p := s.active, Stack(s, s.active), FreePid(s);
      && k.ttys[t].init == (if stack == [] then 0 else 1) && k.ttys[t].pid == Top(stack, t)
      && (stack == [] ==> Step(s, Execute(Program, c)) == Chained(s, stack + [Frame(t, c)]))
  {
    AgreesReady(k, s);
    FirstFreeIsFreePid(k, s);
    assert ChainOk(k, Stack(s, s.active), s.active);
    assert [] + [Frame(s.active, c)] == [Frame(s.active, c)];
  }

  lemma OwnerAside(k: Data, s: System, t: int)
    requires TreeOk(k, s) && 0 <= t < TERMINALS
    ensures TreeOk(k, s.(owner := t))
  {
    assert Used(s.(owner := t)) == Used(s);
  }

  /** A base shell's terminal is marked and its page mapped. */
  function Based(k: Data, t: int): Data
    requires Shaped(k) && 0 <= t < TERMINALS
  {
    k.(currPid := t, ttys := k.ttys[t := Tty(t, NOBODY, 1)], userPage := UserEntry(t))
  }

  lemma ExecBased(k: Data, t: int, c: Ctx)
    requires Ready(k) && k.active == t && k.ttys[t].init == 0 && k.ttys[t].pid == t
    ensures ExecData(k, Program, c) == Started(Based(k, t), t, NOBODY, c)
  {
  }

  lemma ExecBaseTree(k: Data, s: System, c: Ctx)
    requires TreeOk(k, s) && Ready(k) && Stack(s, s.active) == [] && k.ttys[s.active].init == 0
    requires k.ttys[s.active].pid == s.active
    ensures TreeOk(ExecData(k, Program, c), Chained(s, [] + [Frame(s.active, c)]))
  {
    var t := s.active;
    assert Based(k, t).pids == k.pids[t := 1];
    assert TreeOk(Started(Based(k, t), t, NOBODY, c), Chained(s, [] + [Frame(t, c)])) by {
      PushAgrees(k, s, Based(k, t), t, NOBODY, c);
    }
    ExecBased(k, t, c);
  }

  lemma ExecPushTree(k: Data, s: System, c: Ctx)
    requires TreeOk(k, s) && Ready(k) && Stack(s, s.active) != [] && k.ttys[s.active].init == 1
    requires FirstFree(k.pids, 3) == FreePid(s) < PROCESSES && k.ttys[s.active].pid == Top(Stack(s, s.active), s.active)
    ensures TreeOk(ExecData(k, Program, c),
                   Chained(s, Stack(s, s.active) + [Frame(FreePid(s), c)]))
  {
    var pid := k.ttys[s.active].pid;
    PushAgrees(k, s, Taken(k.(currPid := pid), FreePid(s)), FreePid(s), pid, c);
  }

  lemma ExecTree(k: Data, s: System, c: Ctx)
    requires TreeOk(k, s)
    ensures Ready(k) && TreeOk(ExecData(k, Program, c), Step(s, Execute(Program, c)))
  {
    ExecCases(k, s, c);
    if Stack(s, s.active) == [] {
      ExecBaseTree(k, s, c);
    } else if FreePid(s) < PROCESSES {
      ExecPushTree(k, s, c);
    } else {
      OwnerAside(k, s, s.active);
    }
  }

  lemma ExecMaps(k: Data, s: System, image: Image, c: Ctx)
    requires MapsOk(k, s) && BootPhase(s) && Ready(k) && k.active == s.active && !image.Unloadable?
    requires TtyOk(k.ttys[s.active], Stack(s, s.active), s.active) && FirstFree(k.pids, 3) == FreePid(s)
    ensures MapsOk(ExecData(k, image, c), Step(s, Execute(image, c)))
  {
  }

  /** execute_call refines a push. */
  lemma ExecAgrees(k: Data, s: System, image: Image, c: Ctx)
    requires Agrees(k, s) && !image.Unloadable?
    ensures Ready(k) && Agrees(ExecData(k, image, c), Step(s, Execute(image, c)))
  {
    StepKeepsInv(s, Execute(image, c));
    ExecCases(k, s, c);
    assert ChainOk(k, Stack(s, s.active), s.active);
    ExecMaps(k, s, image, c);
    if image.Program? {
      ExecTree(k, s, c);
    } else {
      OwnerAside(k, s, s.active);
    }
  }

  lemma UsedAfterPop(s: System)
    requires Tree(s) && Stack(s, s.active) != []
    ensures var stack := Stack(s, s.active);
      Used(Chained(s, stack[..|stack| - 1])) == Used(s) - {Top(stack, s.active)}
  {
    var t, stack := s.active, Stack(s, s.active);
    var p, s' := Top(stack, t), Chained(s, stack[..|stack| - 1]);
    TopInPids(stack, t);
    assert Pids(Stack(s', t)) == Pids(stack) - {p};
    assert forall u :: 0 <= u < TERMINALS && u != t ==> Stack(s', u) == Stack(s, u) && p !in Pids(Stack(s, u));
  }

  lemma PoppedPool(k: Data, s: System, k': Data)
    requires Shaped(k) && PoolOk(k, s) && Shaped(k') && Tree(s) && Stack(s, s.active) != []
    requires var p := Top(Stack(s, s.active), s.active);
      && 3 <= p < PROCESSES && k'.pids == k.pids[p := 0]
      && k'.pcbs == k.pcbs[p := k.pcbs[p].(terminalOn := NOBODY)]
    ensures var stack := Stack(s, s.active);
      PoolOk(k', Chained(s, stack[..|stack| - 1]))
  {
    UsedAfterPop(s);
  }

  lemma ActiveChain(k: Data, s: System)
    requires TreeOk(k, s)
    ensures ChainOk(k, Stack(s, s.active), s.active) && StackOk(Stack(s, s.active), s.active)
  {
  }

  lemma UnwoundData(k: Data, stack: seq<Frame>, t: int) returns (k': Data, p: int)
    requires Ready(k) && k.active == t && |stack| >= 2 && ChainOk(k, stack, t) && StackOk(stack, t)
    ensures k.ttys[t].pid >= 3 && k' == Unwound(k) && p == Top(stack, t)
    ensures Shaped(k') && k'.active == t && ChainOk(k', stack[..|stack| - 1], t)
    ensures 3 <= p < PROCESSES && k'.pids == k.pids[p := 0]
    ensures k'.pcbs == k.pcbs[p := k.pcbs[p].(terminalOn := NOBODY)]
    ensures forall u :: 0 <= u < TERMINALS && u != t ==> k'.ttys[u] == k.ttys[u]
  {
    TtyReady(k, stack, t);
    k', p := Unwound(k), Top(stack, t);
    FramesKept(k.pcbs, k'.pcbs, stack[..|stack| - 1], t);
  }

  /** The active terminal's chain without its top, whose pid is given back. */
  lemma PoppedTree(k: Data, s: System, k': Data, stack: seq<Frame>)
    requires TreeOk(k, s) && stack == Stack(s, s.active) && |stack| >= 2 && Shaped(k') && k'.active == k.active
    requires ChainOk(k', stack[..|stack| - 1], s.active)
    requires var p := Top(stack, s.active);
      && 3 <= p < PROCESSES && k'.pids == k.pids[p := 0]
      && k'.pcbs == k.pcbs[p := k.pcbs[p].(terminalOn := NOBODY)]
    requires forall u :: 0 <= u < TERMINALS && u != s.active ==> k'.ttys[u] == k.ttys[u]
    ensures TreeOk(k', Chained(s, stack[..|stack| - 1]))
  {
    var front, p := stack[..|stack| - 1], Top(stack, s.active);
    assert StackOk(front, s.active) && Pids(stack) == Pids(front) + {p};
    assert PoolOk(k', Chained(s, front)) by {
      PoppedPool(k, s, k');
    }
    NewChain(k, s, k', front);
  }

  lemma UnwindTree(k: Data, s: System)
    requires TreeOk(k, s) && Ready(k) && |Stack(s, s.active)| >= 2
    ensures k.ttys[s.active].pid >= 3
    ensures var stack := Stack(s, s.active);
      TreeOk(Unwound(k), Chained(s, stack[..|stack| - 1]))
  {
    var t, stack := s.active, Stack(s, s.active);
    ActiveChain(k, s);
    var k', p := UnwoundData(k, stack, t);
    PoppedTree(k, s, k', stack);
  }

  lemma BaseHaltTree(k: Data, s: System)
    requires TreeOk(k, s) && |Stack(s, s.active)| <= 1
    ensures TreeOk(k.(currPid := k.active, ttys := k.ttys[k.active := Tty(k.active, NOBODY, 0)]),
                   Chained(s, []))
  {
    var t, s' := s.active, Chained(s, []);
    var k' := k.(currPid := t, ttys := k.ttys[t := Tty(t, NOBODY, 0)]);
    assert PoolOk(k', s') by {
      assert StackOk(Stack(s, t), t);
      assert Pids(Stack(s, t)) <= {t} by {
        assert Stack(s, t) != [] ==> Stack(s, t)[..0] == [];
      }
    }
    NewChain(k, s, k', []);
  }

  lemma BaseHaltStep(s: System, c: Ctx)
    requires |Stack(s, s.active)| <= 1
    ensures Step(Chained(s, []), Execute(Program, c)) == Step(s, Halt(c))
  {
    var s1 := Chained(s, []);
    assert s1.terms[s.active := Term([Frame(s.active, c)], s.terms[s.active].parked)] ==
           s.terms[s.active := Term([Frame(s.active, c)], s.terms[s.active].parked)];
  }

  lemma RestartTree(k: Data, s: System, c: Ctx)
    requires TreeOk(k, s) && Ready(k) && |Stack(s, s.active)| <= 1
    requires k.ttys[s.active].pid < 3
    ensures TreeOk(HaltData(k, c), Step(s, Halt(c)))
  {
    var t := s.active;
    var k1, s1 := k.(currPid := t, ttys := k.ttys[t := Tty(t, NOBODY, 0)]), Chained(s, []);
    BaseHaltTree(k, s);
    BaseHaltStep(s, c);
    assert TreeOk(HaltData(k, c), Step(s1, Execute(Program, c))) by {
      ExecTree(k1, s1, c);
    }
  }

  lemma PopTree(k: Data, s: System, c: Ctx)
    requires TreeOk(k, s) && Ready(k) && |Stack(s, s.active)| >= 2
    ensures TreeOk(HaltData(k, c), Step(s, Halt(c)))
  {
    HaltPops(s, c);
    UnwindTree(k, s);
    HaltUnwinds(k, c);
  }

  lemma HaltPops(s: System, c: Ctx)
    requires |Stack(s, s.active)| >= 2
    ensures var stack := Stack(s, s.active); Step(s, Halt(c)) == Chained(s, stack[..|stack| - 1])
  {
  }

  lemma HaltUnwinds(k: Data, c: Ctx)
    requires Ready(k) && k.ttys[k.active].pid >= 3
    ensures HaltData(k, c) == Unwound(k)
  {
  }

  lemma HaltTree(k: Data, s: System, c: Ctx)
    requires TreeOk(k, s) && Ready(k)
    requires k.ttys[s.active].pid >= 3 <==> |Stack(s, s.active)| >= 2
    ensures TreeOk(HaltData(k, c), Step(s, Halt(c)))
  {
    if |Stack(s, s.active)| >= 2 {
      PopTree(k, s, c);
    } else {
      RestartTree(k, s, c);
    }
  }

  lemma HaltMaps(k: Data, s: System, c: Ctx)
    requires MapsOk(k, s) && BootPhase(s) && Ready(k) && k.active == s.active
    requires ChainOk(k, Stack(s, s.active), s.active) && StackOk(Stack(s, s.active), s.active)
    ensures MapsOk(HaltData(k, c), Step(s, Halt(c)))
    ensures k.ttys[s.active].pid >= 3 <==> |Stack(s, s.active)| >= 2
    ensures Resumed(s) == if k.ttys[s.active].pid >= 3 then Some(k.pcbs[k.ttys[s.active].pid].task) else None
  {
    TtyReady(k, Stack(s, s.active), s.active);
  }

  /** halt_call refines a pop, or the restart of a base shell. */
  lemma HaltAgrees(k: Data, s: System, c: Ctx)
    requires Agrees(k, s)
    ensures Ready(k) && Agrees(HaltData(k, c), Step(s, Halt(c)))
  {
    AgreesReady(k, s);
    StepKeepsInv(s, Halt(c));
    HaltMaps(k, s, c);
    HaltTree(k, s, c);
  }

  /** A halt that pops resumes the context kept in the halted process's control block. */
  lemma HaltResumes(k: Data, s: System)
    requires Agrees(k, s)
    ensures var pid := k.ttys[k.active].pid;
      && pid == Top(Stack(s, s.active), s.active) && 0 <= pid < PROCESSES
      && Resumed(s) == if pid >= 3 then Some(k.pcbs[pid].task) else None
  {
    AgreesReady(k, s);
    assert ChainOk(k, Stack(s, s.active), s.active) && StackOk(Stack(s, s.active), s.active);
    TtyReady(k, Stack(s, s.active), s.active);
  }

  lemma SwitchChain(k: Data, s: System, saved: Ctx, t: int)
    requires TreeOk(k, s) && Ready(k) && 0 <= t < TERMINALS
    ensures ChainOk(SwitchedOut(k, saved), Stack(s, t), t)
  {
    assert ChainOk(k, Stack(s, t), t);
    FramesKept(k.pcbs, SwitchedOut(k, saved).pcbs, Stack(s, t), t);
  }

  lemma SwitchParked(k: Data, s: System, saved: Ctx, t: int)
    requires TreeOk(k, s) && Ready(k) && Stack(s, s.active) != []
    requires 0 <= t < TERMINALS && t != Next(s) && Stack(s, t) != []
    ensures var p := Top(Stack(s, t), t);
      0 <= p < PROCESSES && Some(SwitchedOut(k, saved).pcbs[p].active) == Parked(s, saved).terms[t].parked
  {
    assert ChainOk(k, Stack(s, t), t) && ChainOk(k, Stack(s, s.active), s.active);
    if t != s.active {
      NotShared(s, t, s.active, |Stack(s, t)| - 1, |Stack(s, s.active)| - 1);
    }
  }

  lemma SwitchTree(k: Data, s: System, saved: Ctx)
    requires TreeOk(k, s) && Ready(k) && Stack(s, s.active) != []
    ensures TreeOk(SwitchedOut(k, saved), Parked(s, saved))
  {
    var k', s' := SwitchedOut(k, saved), Parked(s, saved);
    assert forall t :: 0 <= t < TERMINALS ==> Stack(s', t) == Stack(s, t);
    SwitchChain(k, s, saved, 0); SwitchChain(k, s, saved, 1); SwitchChain(k, s, saved, 2);
    assert ParkedOk(k', s') by {
      forall t | 0 <= t < TERMINALS && t != Next(s) && Stack(s, t) != []
        ensures 0 <= Top(Stack(s, t), t) < PROCESSES
        ensures Some(k'.pcbs[Top(Stack(s, t), t)].active) == s'.terms[t].parked
      {
        SwitchParked(k, s, saved, t);
      }
    }
    assert Used(s') == Used(s);
  }

  lemma BootsIff(k: Data, s: System)
    requires Agrees(k, s)
    ensures k.ttys[0].init == 0 <==> Stack(s, 0) == []
    ensures Stack(s, 0) != [] ==> (Boots(k) <==> Stack(s, Next(s)) == []) && Stack(s, s.active) != []
    ensures Stack(s, Next(s)) != [] ==> k.ttys[Next(s)].pid == Top(Stack(s, Next(s)), Next(s))
  {
    assert ChainOk(k, Stack(s, 0), 0) && ChainOk(k, Stack(s, 1), 1) && ChainOk(k, Stack(s, 2), 2);
  }

  lemma TickTree(k: Data, s: System, saved: Ctx, launch: Ctx)
    requires TreeOk(k, s) && Ready(k) && k.ttys[0].init != 0 && Stack(s, 0) != []
    requires Stack(s, s.active) != [] && (Boots(k) <==> Stack(s, Next(s)) == [])
    ensures TreeOk(TickData(k, saved, launch), Step(s, Tick(saved, launch)))
  {
    SwitchTree(k, s, saved);
    if Boots(k) {
      BootTree(k, s, saved, launch);
    } else {
      MapsAside(SwitchedOut(k, saved), Parked(s, saved), TickData(k, saved, launch));
    }
  }

  /** The maps are no part of the tree. */
  lemma MapsAside(k: Data, s: System, k': Data)
    requires TreeOk(k, s) && k' == k.(userPage := k'.userPage, esp0 := k'.esp0)
    ensures TreeOk(k', s)
  {
  }

  lemma BootTree(k: Data, s: System, saved: Ctx, launch: Ctx)
    requires TreeOk(k, s) && Ready(k) && TreeOk(SwitchedOut(k, saved), Parked(s, saved))
    requires k.ttys[0].init != 0 && Stack(s, 0) != [] && Boots(k) && Stack(s, Next(s)) == []
    ensures TreeOk(TickData(k, saved, launch), Step(s, Tick(saved, launch)))
  {
    var k1, s1 := SwitchedOut(k, saved).(initCount := k.initCount + 1), Parked(s, saved);
    assert TreeOk(k1, s1);
    ExecTree(k1, s1, launch);
  }

  lemma TickMaps(k: Data, s: System, saved: Ctx, launch: Ctx)
    requires Agrees(k, s) && Ready(k)
    ensures MapsOk(TickData(k, saved, launch), Step(s, Tick(saved, launch)))
  {
    BootsIff(k, s);
    if k.ttys[0].init != 0 {
      if Boots(k) {
        BootMaps(k, s, saved, launch);
      } else {
        SwitchMaps(k, s, saved, launch);
      }
    }
  }

  lemma BootMaps(k: Data, s: System, saved: Ctx, launch: Ctx)
    requires Agrees(k, s) && Ready(k) && k.ttys[0].init != 0 && Boots(k)
    requires Stack(s, 0) != [] && Stack(s, Next(s)) == []
    ensures MapsOk(TickData(k, saved, launch), Step(s, Tick(saved, launch)))
  {
    assert ChainOk(k, [], Next(s));
  }

  lemma SwitchMaps(k: Data, s: System, saved: Ctx, launch: Ctx)
    requires Agrees(k, s) && Ready(k) && k.ttys[0].init != 0 && !Boots(k)
    requires Stack(s, 0) != [] && Stack(s, Next(s)) != []
    requires k.ttys[Next(s)].pid == Top(Stack(s, Next(s)), Next(s))
    ensures MapsOk(TickData(k, saved, launch), Step(s, Tick(saved, launch)))
  {
  }

  /** pit_intr refines a tick. */
  lemma TickAgrees(k: Data, s: System, saved: Ctx, launch: Ctx)
    requires Agrees(k, s)
    ensures Ready(k) && Agrees(TickData(k, saved, launch), Step(s, Tick(saved, launch)))
  {
    AgreesReady(k, s);
    assert Inv(Step(s, Tick(saved, launch))) by {
      StepKeepsInv(s, Tick(saved, launch));
    }
    assert MapsOk(TickData(k, saved, launch), Step(s, Tick(saved, launch))) by {
      TickMaps(k, s, saved, launch);
    }
    BootsIff(k, s);
    if k.ttys[0].init != 0 {
      TickTree(k, s, saved, launch);
    }
  }

  /** A tick loads what the next terminal was parked with. */
  lemma TickLoads(k: Data, s: System)
    requires Agrees(k, s)
    ensures Ready(k)
    ensures var next := (k.active + 1) % TERMINALS;
      Loads(s) == if k.ttys[0].init == 0 || Boots(k) then None else Some(k.pcbs[k.ttys[next].pid].active)
  {
    AgreesReady(k, s);
    BootsIff(k, s);
  }

  // ----- runs of the kernel

  ghost function DataStep(k: Data, e: Event): Data {
    if !Ready(k) then k
    else
      match e
      case Tick(saved, launch) => TickData(k, saved, launch)
      case Execute(image, c) => ExecData(k, image, c)
      case Halt(c) => HaltData(k, c)
  }

  ghost function RunData(k: Data, es: seq<Event>): Data
    decreases |es|
  {
    if es == [] then k else RunData(DataStep(k, es[0]), es[1..])
  }

  lemma StepRefines(k: Data, s: System, e: Event)
    requires Agrees(k, s) && Loadable(e)
    ensures Agrees(DataStep(k, e), Step(s, e))
  {
    match e
    case Tick(saved, launch) => TickAgrees(k, s, saved, launch);
    case Execute(image, c) => ExecAgrees(k, s, image, c);
    case Halt(c) => HaltAgrees(k, s, c);
  }

  /** In every reachable state pid_array, the control blocks and the terminal structs stand
      for three disjoint stacks of processes. */
  lemma {:induction false} RunRefines(k: Data, s: System, es: seq<Event>)
    requires Agrees(k, s) && AllLoadable(es)
    ensures Agrees(RunData(k, es), Run(s, es))
    decreases |es|
  {
    if es != [] {
      StepRefines(k, s, es[0]);
      RunRefines(DataStep(k, es[0]), Step(s, es[0]), es[1..]);
    }
  }

  /** curr_pid names the running process exactly when the ticks since the last execute or
      halt are a multiple of three. */
  lemma CurrPidIsFreshIff(k: Data, es: seq<Event>)
    requires Agrees(k, OFF) && AllLoadable(es)
    ensures var r := RunData(k, es);
      Shaped(r) && 0 <= r.active < TERMINALS &&
      (r.currPid == r.ttys[r.active].pid <==> SinceCall(OFF, es) % TERMINALS == 0)
  {
    var r, s := RunData(k, es), Run(OFF, es);
    assert Agrees(r, s) by {
      RunRefines(k, OFF, es);
    }
    OwnerLags(OFF, es);
    SameOwnerIff(s, SinceCall(OFF, es));
    if Booted(s) {
      OwnPidIff(r, s);
    } else {
      assert ChainOk(r, Stack(s, s.active), s.active);
    }
  }

  /** The first tick after the three shells came up leaves curr_pid behind. */
  lemma CurrPidGoesStale(k: Data, c: Ctx)
    requires Agrees(k, OFF)
    ensures var r := RunData(k, [Execute(Program, c), Tick(c, c), Tick(c, c), Tick(c, c)]);
      Shaped(r) && 0 <= r.active < TERMINALS && r.currPid != r.ttys[r.active].pid
  {
    FirstTickAfterBoot(c);
    CurrPidIsFreshIff(k, [Execute(Program, c), Tick(c, c), Tick(c, c), Tick(c, c)]);
  }

  /** What a tick finds in the control block of the terminal it switches to is what was
      saved when that terminal was last switched out. */
  lemma SavedContextSurvives(k: Data, es: seq<Event>)
    requires Agrees(k, OFF) && AllLoadable(es) && Booted(Run(OFF, es))
    ensures var r := RunData(k, es);
      var next := (r.active + 1) % TERMINALS;
      Ready(r) && LastOut(OFF, es, next) == Some(r.pcbs[r.ttys[next].pid].active)
  {
    var r, s := RunData(k, es), Run(OFF, es);
    assert Agrees(r, s) by {
      RunRefines(k, OFF, es);
    }
    assert Loads(s).Some? && Loads(s) == LastOut(OFF, es, Next(s)) by {
      ContextPreservation(es);
    }
    ResumesLoaded(r, s);
  }

  lemma ResumesLoaded(k: Data, s: System)
    requires Agrees(k, s) && Loads(s).Some?
    ensures Ready(k) && k.active == s.active
    ensures Loads(s) == Some(k.pcbs[k.ttys[Next(s)].pid].active)
  {
    TickLoads(k, s);
  }

  /** A halt finds in the control block the context saved by the execute that started the
      process, puts the terminal's pid and parentpid back, and frees the pid. */
  lemma HaltUndoesExecute(k: Data, s: System, c: Ctx, es: seq<Event>, relaunch: Ctx)
    requires Agrees(k, s) && Balanced(s, c, es)
    requires Stack(s, s.active) != [] && FreePid(s) < PROCESSES
    ensures var k2 := RunData(DataStep(k, Execute(Program, c)), es);
      var k3 := DataStep(k2, Halt(relaunch));
      var p := FreePid(s);
      && Shaped(k) && Shaped(k2) && Shaped(k3)
      && k2.ttys[k.active].pid == p && k2.pcbs[p].task == c
      && k3.ttys[k.active] == k.ttys[k.active] && k3.pids[p] == 0
  {
    var s1 := Step(s, Execute(Program, c));
    var s2 := Run(s1, es);
    var k2 := RunData(DataStep(k, Execute(Program, c)), es);
    assert Agrees(k2, s2) by {
      StepRefines(k, s, Execute(Program, c));
      RunRefines(DataStep(k, Execute(Program, c)), s1, es);
    }
    HaltReturnsToItsExecute(s, c, es, relaunch);
    HaltUndoes(k, s, k2, s2, FreePid(s), c, relaunch);
  }

  /** The halt, once the process is on top again. */
  lemma HaltUndoes(k: Data, s: System, k2: Data, s2: System, p: int, c: Ctx, relaunch: Ctx)
    requires Agrees(k, s) && Agrees(k2, s2) && s2.active == s.active && 3 <= p < PROCESSES
    requires Top(Stack(s2, s.active), s.active) == p && Resumed(s2) == Some(c)
    requires var s3 := Step(s2, Halt(relaunch));
      Stack(s3, s.active) == Stack(s, s.active) != [] && p !in Used(s3)
    ensures var k3 := DataStep(k2, Halt(relaunch));
      && Shaped(k) && Shaped(k2) && Shaped(k3)
      && k2.ttys[k.active].pid == p && k2.pcbs[p].task == c
      && k3.ttys[k.active] == k.ttys[k.active] && k3.pids[p] == 0
  {
    HaltResumes(k2, s2);
    var k3, s3 := DataStep(k2, Halt(relaunch)), Step(s2, Halt(relaunch));
    assert TreeOk(k3, s3) by {
      StepRefines(k2, s2, Halt(relaunch));
    }
    SameStackSameTty(k, s, k3, s3, s.active);
  }

  lemma SameStackSameTty(k: Data, s: System, k': Data, s': System, t: int)
    requires TreeOk(k, s) && TreeOk(k', s') && 0 <= t < TERMINALS
    requires Stack(s', t) == Stack(s, t) != []
    ensures k'.ttys[t] == k.ttys[t]
  {
    assert ChainOk(k, Stack(s, t), t) && ChainOk(k', Stack(s', t), t);
  }

  /** The process of a taken pid has no control block, so no chain can end in it. */
  lemma TakenFitsNoTree(k: Data, s: System, s': System)
    requires TreeOk(k, s) && Stack(s, s.active) != [] && 3 <= FreePid(s) < PROCESSES
    ensures !Agrees(Taken(k.(currPid := k.ttys[s.active].pid), FreePid(s)), s')
  {
    var t, p := s.active, FreePid(s);
    var k' := Taken(k.(currPid := k.ttys[t].pid), p);
    assert p !in Used(s) && k'.pcbs[p] == k.pcbs[p];
    if Agrees(k', s') {
      TaggedTop(k', Stack(s', t), t);
    }
  }

  lemma TaggedTop(k: Data, stack: seq<Frame>, t: int)
    requires Shaped(k) && 0 <= t < TERMINALS && ChainOk(k, stack, t) && 3 <= k.ttys[t].pid < PROCESSES
    ensures k.pcbs[k.ttys[t].pid].processId == k.ttys[t].pid && k.pcbs[k.ttys[t].pid].terminalOn == t
  {
  }

  /** An image that fails to load after its pid was taken leaves data that stand for no
      three stacks at all; the tree survives exactly when no pid was free. */
  lemma UnloadableImageIff(k: Data, s: System, c: Ctx)
    requires Agrees(k, s) && Stack(s, s.active) != []
    ensures Ready(k)
    ensures (exists s' :: Agrees(ExecData(k, Unloadable, c), s')) <==> FreePid(s) == PROCESSES
  {
    ExecCases(k, s, c);
    if FreePid(s) == PROCESSES {
      RefusedAgrees(k, s, c);
    } else {
      TakenOnly(k, s, c);
      forall s'
        ensures !Agrees(ExecData(k, Unloadable, c), s')
      {
        TakenFitsNoTree(k, s, s');
      }
    }
  }

  lemma RefusedAgrees(k: Data, s: System, c: Ctx)
    requires Agrees(k, s) && Stack(s, s.active) != [] && FreePid(s) == PROCESSES
    ensures Ready(k) && Agrees(ExecData(k, Unloadable, c), s.(owner := s.active))
  {
    ExecCases(k, s, c);
    OwnerAside(k, s, s.active);
  }

  lemma TakenOnly(k: Data, s: System, c: Ctx)
    requires Agrees(k, s) && Stack(s, s.active) != [] && FreePid(s) < PROCESSES
    ensures Ready(k) && ExecData(k, Unloadable, c) == Taken(k.(currPid := k.ttys[s.active].pid), FreePid(s))
  {
    ExecCases(k, s, c);
  }

  lemma CountAside(k: Data, n: int, saved: Ctx)
    requires Ready(k)
    ensures var k' := k.(initCount := n);
      Ready(k') && SwitchedOut(k', saved) == SwitchedOut(k, saved).(initCount := n)
  {
  }

  // ----- the calls themselves

  /** No pid of the pool finds a control block that calls itself its own. */
  ghost predicate Blank(memory: seq<Pcb>) {
    forall p :: 3 <= p < |memory| ==> memory[p].processId != p || memory[p].terminalOn == NOBODY
  }

  class ProcessTable {
    const pidArray: array<int>
    const pcb: array<Pcb>
    const terminal: array<Tty>
    var currPid: int
    var active: int
    var displayed: int
    var initCount: int
    var userPage: int
    var videoPage: int
    var esp0: int

    ghost predicate Shape()
      reads this
    {
      pidArray.Length == pcb.Length == PROCESSES && terminal.Length == TERMINALS
    }

    ghost function Now(): Data
      reads this, pidArray, pcb, terminal
    {
      Data(pidArray[..], pcb[..], terminal[..], currPid, active, initCount, userPage, esp0)
    }

    /** The user video page shows the active terminal's own screen. */
    ghost predicate VideoOk()
      reads this
    {
      videoPage == VideoEntry(active, displayed)
    }

    /** Power-on: `memory` is what the control blocks hold before anything ran. */
    constructor (memory: seq<Pcb>)
      requires |memory| == PROCESSES && Blank(memory)
      ensures Shape() && Agrees(Now(), OFF) && Now().pcbs == memory
      ensures fresh(pidArray) && fresh(pcb) && fresh(terminal)
    {
      pidArray := new int[PROCESSES](p => if p < 3 then 1 else 0);
      pcb := new Pcb[PROCESSES](p requires 0 <= p < PROCESSES => memory[p]);
      terminal := new Tty[TERMINALS](t => Tty(t, 0, 0));
      currPid, active, displayed, initCount, userPage, videoPage, esp0 := 0, 0, 0, 0, 0, 0, 8 * MB;
      new;
      assert pcb[..] == memory;
    }

    /** Maps the process's own 4 MB at the user address. */
    method VirtToPhysUser(pid: int)
      modifies this`userPage
      ensures userPage == UserEntry(pid)
    {
      userPage := Mask10(4 * MB * pid + 8 * MB) + USER_FLAGS;
    }

    method RemapVideoMemUser(t: int)
      modifies this`videoPage
      ensures videoPage == VideoEntry(t, displayed)
    {
      if displayed == t {
        videoPage := Mask20(VIDEO) + VIDEO_FLAGS;
      } else {
        videoPage := Mask20(VIDEO + (t + 1) * 4 * KB) + VIDEO_FLAGS;
      }
    }

    method FindFreePid() returns (i: int)
      requires Shape()
      ensures i == FirstFree(pidArray[..], 3)
    {
      i := 3;
      while i < PROCESSES && pidArray[i] != 0
        invariant 3 <= i <= PROCESSES
        invariant FirstFree(pidArray[..], 3) == FirstFree(pidArray[..], i)
      {
        i := i + 1;
      }
    }

    method StartProcess(oldPid: int, c: Ctx)
      requires Shape() && 0 <= active < TERMINALS && 0 <= currPid < PROCESSES
      modifies this`esp0, pcb, terminal
      ensures Now() == Started(old(Now()), currPid, if currPid < 3 then NOBODY else oldPid, c)
    {
      var parent := if currPid < 3 then NOBODY else oldPid;
      terminal[active] := terminal[active].(parentpid := parent);
      pcb[currPid] := pcb[currPid].(parent := parent);
      pcb[currPid] := pcb[currPid].(processId := currPid, terminalOn := active);
      esp0 := KernelStackAddr(currPid);
      pcb[currPid] := pcb[currPid].(task := c);
      assert pcb[..] == old(pcb[..])[currPid := pcb[currPid]];
    }

    method ExecuteCall(image: Image, c: Ctx) returns (r: int)
      requires Shape() && Ready(Now())
      modifies this`currPid, this`userPage, this`esp0, pidArray, pcb, terminal
      ensures Now() == ExecData(old(Now()), image, c)
      ensures (r == -1) <==> (!image.Program? ||
        (old(terminal[active].init) != 0 && FirstFree(old(pidArray[..]), 3) == PROCESSES))
    {
      currPid := terminal[active].pid;
      if image.NotProgram? {
        return -1;
      }
      var oldPid := currPid;
      if terminal[active].init == 0 {
        currPid := terminal[active].pid;
        terminal[active] := terminal[active].(parentpid := NOBODY, init := 1);
      } else {
        var i := FindFreePid();
        if i >= PROCESSES {
          return -1;
        }
        pidArray[i] := 1;
        currPid := i;
      }
      terminal[active] := terminal[active].(pid := currPid);
      VirtToPhysUser(currPid);
      if image.Unloadable? {
        return -1;
      }
      StartProcess(oldPid, c);
      return 0;
    }

    /** Returns the context the processor resumes; none when a base shell is restarted. */
    method HaltCall(c: Ctx) returns (resumed: Option<Ctx>)
      requires Shape() && Ready(Now())
      modifies this`currPid, this`userPage, this`esp0, pidArray, pcb, terminal
      ensures Now() == HaltData(old(Now()), c)
      ensures var pid := old(terminal[active].pid);
        resumed == if pid >= 3 then Some(old(pcb[pid].task)) else None
    {
      currPid := terminal[active].pid;
      if currPid < 3 {
        currPid := active;
        terminal[active] := terminal[active].(pid := currPid);
        terminal[active] := terminal[active].(parentpid := NOBODY, init := 0);
        var _ := ExecuteCall(Program, c);
        return None;
      }
      var curr, parent := currPid, terminal[active].parentpid;
      pcb[curr] := pcb[curr].(terminalOn := NOBODY);
      currPid := terminal[active].parentpid;
      terminal[active] := terminal[active].(pid := currPid);
      terminal[active] := terminal[active].(parentpid := pcb[parent].parent);
      pidArray[pcb[curr].processId] := 0;
      VirtToPhysUser(currPid);
      esp0 := KernelStackAddr(currPid);
      return Some(pcb[curr].task);
    }

    /** Saves the running process's context and makes the next terminal active. */
    method SwitchOut(saved: Ctx)
      requires Shape() && Ready(Now())
      modifies this`active, pcb
      ensures Now() == SwitchedOut(old(Now()), saved)
    {
      pcb[terminal[active].pid] := pcb[terminal[active].pid].(active := saved);
      active := (active + 1) % TERMINALS;
    }

    method StartNextShell(saved: Ctx, launch: Ctx)
      requires Shape() && Ready(Now())
      modifies this`currPid, this`active, this`userPage, this`videoPage, this`esp0, pidArray, pcb, terminal
      ensures Now() == ExecData(SwitchedOut(old(Now()), saved), Program, launch) && VideoOk()
    {
      SwitchOut(saved);
      RemapVideoMemUser(active);
      var _ := ExecuteCall(Program, launch);
    }

    method BootShell(count: int, saved: Ctx, launch: Ctx)
      requires Shape() && Ready(Now())
      modifies this, pidArray, pcb, terminal
      ensures Now() == ExecData(SwitchedOut(old(Now()), saved).(initCount := count), Program, launch)
      ensures displayed == old(displayed) && VideoOk()
    {
      ghost var k := Now();
      initCount := count;
      CountAside(k, count, saved);
      StartNextShell(saved, launch);
    }

    /** Returns the context loaded; none before power-on completes or while a shell boots. */
    method PitIntr(saved: Ctx, launch: Ctx) returns (loaded: Option<Ctx>)
      requires Shape() && Ready(Now())
      modifies this, pidArray, pcb, terminal
      ensures Now() == TickData(old(Now()), saved, launch) && displayed == old(displayed)
      ensures old(terminal[0].init) != 0 ==> VideoOk()
      ensures loaded ==
        if old(terminal[0].init) == 0 || old(Boots(Now())) then None
        else Some(SwitchedOut(old(Now()), saved).pcbs[old(terminal[(active + 1) % TERMINALS].pid)].active)
    {
      ghost var k := Now();
      if terminal[0].init == 0 {
        return None;
      }
      if terminal[0].init == 1 && terminal[1].init == 0 && terminal[2].init == 0 && initCount == 0 {
        BootShell(1, saved, launch);
        return None;
      }
      if terminal[0].init == 1 && terminal[1].init == 1 && terminal[2].init == 0 && initCount == 1 {
        BootShell(2, saved, launch);
        return None;
      }
      assert !Boots(k);
      var next := SwitchTerminals(saved);
      return Some(next);
    }

    /** A tick that starts no shell. */
    method SwitchTerminals(saved: Ctx) returns (next: Ctx)
      requires Shape() && Ready(Now())
      modifies this, pcb
      ensures displayed == old(displayed) && VideoOk()
      ensures var k' := SwitchedOut(old(Now()), saved);
        var p := k'.ttys[k'.active].pid;
        && Now() == k'.(userPage := UserEntry(p), esp0 := KernelStackAddr(p))
        && next == k'.pcbs[p].active
    {
      SwitchOut(saved);
      next := SwitchIn();
    }

    /** Maps the active terminal's process and takes up the context saved for it. */
    method SwitchIn() returns (next: Ctx)
      requires Shape() && 0 <= active < TERMINALS && 0 <= terminal[active].pid < PROCESSES
      modifies this`userPage, this`videoPage, this`esp0
      ensures var p := terminal[active].pid;
        && Now() == old(Now()).(userPage := UserEntry(p), esp0 := KernelStackAddr(p))
        && next == pcb[p].active
      ensures VideoOk()
    {
      RemapVideoMemUser(active);
      VirtToPhysUser(terminal[active].pid);
      next := pcb[terminal[active].pid].active;
      esp0 := KernelStackAddr(terminal[active].pid);
    }

    /** Displaying a terminal whose shell has not started runs a shell, but on the active
        terminal; the user video page stays right exactly when the active one is shown. */
    method OpenTerminal(t: int, c: Ctx) returns (r: int)
      requires Shape() && Ready(Now()) && 0 <= t
      modifies this, pidArray, pcb, terminal
      ensures r == if t > 2 then -1 else 0
      ensures t <= 2 ==> displayed == t
      ensures t > 2 || t == old(displayed) ==> Now() == old(Now()) && videoPage == old(videoPage)
      ensures t <= 2 && t != old(displayed) ==>
        && Now() == (if old(terminal[t].init) == 0 then ExecData(old(Now()), Program, c) else old(Now()))
        && (VideoOk() <==> t == active)
    {
      if t > 2 {
        return -1;
      }
      if t == displayed {
        return 0;
      }
      displayed := t;
      RemapVideoMemUser(displayed);
      if terminal[displayed].init == 0 {
        var _ := ExecuteCall(Program, c);
      }
      return 0;
    }
  }
}
