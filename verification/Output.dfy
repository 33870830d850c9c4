/** Whose output a terminal shows: the processes of the kernel printing on the three
    screens of the console, over whole runs. */
module Output {
  import opened Processes
  import opened Kernel
  import Console
  import Screen

  /** A step of the process machine, a character printed by the running process, one echoed
      by the keyboard, a switch of the display, or `clear`. */
  datatype Act =
    | Sched(e: Event)
    | Print(c: Screen.Byte)
    | Echo(c: Screen.Byte)
    | Show(t: int)
    | Wipe

  datatype World = World(k: Data, v: Console.View)

  /** The running process's terminal, as its control block has it. */
  function OutputTerminal(k: Data): int
    requires Ready(k)
  {
    k.pcbs[k.ttys[k.active].pid].terminalOn
  }

  ghost predicate ActOk(k: Data, a: Act) {
    match a
    case Print(_) => Ready(k) && 0 <= OutputTerminal(k) < TERMINALS
    case Show(t) => 0 <= t
    case _ => true
  }

  /** What the act is for the screens, if anything. */
  ghost function ScreenEvent(k: Data, displayed: int, a: Act): Option<Console.Event>
    requires ActOk(k, a)
  {
    match a
    case Sched(_) => None
    case Print(c) => Some(Console.Write(OutputTerminal(k), c))
    case Echo(c) => Some(Console.Write(displayed, c))
    case Show(t) => Some(Console.Open(t))
    case Wipe => Some(Console.Wipe)
  }

  ghost function StepWorld(w: World, a: Act): (r: World)
    requires Console.ViewOk(w.v) && ActOk(w.k, a)
    ensures Console.ViewOk(r.v)
  {
    var e := ScreenEvent(w.k, w.v.displayed, a);
    World(if a.Sched? then DataStep(w.k, a.e) else w.k, if e.Some? then Console.Step(w.v, e.value) else w.v)
  }

  /** No process prints before its terminal's shell runs. */
  predicate ActsOk(s: System, acts: seq<Act>)
    decreases |acts|
  {
    acts == [] ||
    (match acts[0]
     case Sched(e) => Loadable(e) && ActsOk(Step(s, e), acts[1..])
     case Print(_) => Stack(s, s.active) != [] && ActsOk(s, acts[1..])
     case Show(t) => 0 <= t && ActsOk(s, acts[1..])
     case _ => ActsOk(s, acts[1..]))
  }

  ghost function RunWorld(w: World, s: System, acts: seq<Act>): (r: World)
    requires Console.ViewOk(w.v) && Agrees(w.k, s) && ActsOk(s, acts)
    ensures Console.ViewOk(r.v)
    decreases |acts|
  {
    if acts == [] then w
    else
      NextOk(w.k, s, acts[0], acts);
      RunWorld(StepWorld(w, acts[0]), After(s, acts[0]), acts[1..])
  }

  function After(s: System, a: Act): System
    requires a.Sched? ==> Loadable(a.e)
  {
    if a.Sched? then Step(s, a.e) else s
  }

  lemma NextOk(k: Data, s: System, a: Act, acts: seq<Act>)
    requires Agrees(k, s) && acts != [] && a == acts[0] && ActsOk(s, acts)
    ensures ActOk(k, a) && (a.Sched? ==> Loadable(a.e)) && ActsOk(After(s, a), acts[1..])
    ensures Agrees(if a.Sched? then DataStep(k, a.e) else k, After(s, a))
  {
    AgreesReady(k, s);
    if a.Print? {
      OutputGoesToActive(k, s);
    }
    if a.Sched? {
      StepRefines(k, s, a.e);
    }
  }

  /** What belongs on terminal t's screen: the characters printed while the process running
      was one of terminal t's own chain, the keys echoed and the clears while t was on
      display. */
  ghost function Due(s: System, displayed: int, acts: seq<Act>, t: int): seq<Screen.Op>
    requires ActsOk(s, acts) && 0 <= t < TERMINALS
    decreases |acts|
  {
    if acts == [] then []
    else
      var a, rest := acts[0], acts[1..];
      match a
      case Sched(e) => Due(Step(s, e), displayed, rest, t)
      case Print(c) =>
        (if Top(Stack(s, s.active), s.active) in Pids(Stack(s, t)) then [Screen.Put(c)] else [])
          + Due(s, displayed, rest, t)
      case Echo(c) => (if displayed == t then [Screen.Put(c)] else []) + Due(s, displayed, rest, t)
      case Show(u) => Due(s, if u < 3 then u else displayed, rest, t)
      case Wipe => (if displayed == t then [Screen.Clear] else []) + Due(s, displayed, rest, t)
  }

  /** The running process is on the active terminal's chain and on no other. */
  lemma RunsOnActive(s: System, t: int)
    requires Tree(s) && Stack(s, s.active) != [] && 0 <= t < TERMINALS
    ensures Top(Stack(s, s.active), s.active) in Pids(Stack(s, t)) <==> t == s.active
  {
    TopInPids(Stack(s, s.active), s.active);
  }

  lemma FeedFirst(s: Screen.Screen, op: seq<Screen.Op>, ops: seq<Screen.Op>)
    requires Screen.Safe(s) && |op| <= 1
    ensures Screen.Feed(s, op + ops) == Screen.Feed(if op == [] then s else Screen.Apply(s, op[0]), ops)
  {
    if op == [] {
      assert op + ops == ops;
    } else {
      assert op == [op[0]];
      Console.FeedCons(s, op[0], ops);
    }
  }

  /** One act's effect on terminal t's screen. */
  ghost function OwnOp(s: System, displayed: int, a: Act, t: int): (r: seq<Screen.Op>)
    requires 0 <= t < TERMINALS
    ensures |r| <= 1
  {
    match a
    case Print(c) => if Top(Stack(s, s.active), s.active) in Pids(Stack(s, t)) then [Screen.Put(c)] else []
    case Echo(c) => if displayed == t then [Screen.Put(c)] else []
    case Wipe => if displayed == t then [Screen.Clear] else []
    case _ => []
  }

  lemma StepScreen(w: World, s: System, a: Act, t: int)
    requires Console.ViewOk(w.v) && Agrees(w.k, s) && ActOk(w.k, a) && 0 <= t < TERMINALS
    requires a.Print? ==> Stack(s, s.active) != []
    ensures var op := OwnOp(s, w.v.displayed, a, t);
      StepWorld(w, a).v.screens[t] == if op == [] then w.v.screens[t] else Screen.Apply(w.v.screens[t], op[0])
    ensures StepWorld(w, a).v.displayed == if a.Show? && a.t < 3 then a.t else w.v.displayed
  {
    if a.Print? {
      OutputGoesToActive(w.k, s);
      RunsOnActive(s, t);
    }
  }

  /** After any run of the whole machine each terminal's screen is that of a private screen
      fed exactly what belongs there: the output of the processes on its own chain. */
  lemma {:induction false} ScreensBelongToChains(w: World, s: System, acts: seq<Act>, t: int)
    requires Console.ViewOk(w.v) && Agrees(w.k, s) && ActsOk(s, acts) && 0 <= t < TERMINALS
    ensures RunWorld(w, s, acts).v.screens[t] == Screen.Feed(w.v.screens[t], Due(s, w.v.displayed, acts, t))
    decreases |acts|
  {
    if acts != [] {
      var a, rest := acts[0], acts[1..];
      NextOk(w.k, s, a, acts);
      StepScreen(w, s, a, t);
      var w1, s1 := StepWorld(w, a), After(s, a);
      ScreensBelongToChains(w1, s1, rest, t);
      var ops := Due(s1, w1.v.displayed, rest, t);
      FeedFirst(w.v.screens[t], OwnOp(s, w.v.displayed, a, t), ops);
      DueFirst(s, w.v.displayed, acts, t, ops);
    }
  }

  lemma DueFirst(s: System, displayed: int, acts: seq<Act>, t: int, ops: seq<Screen.Op>)
    requires acts != [] && ActsOk(s, acts) && 0 <= t < TERMINALS
    requires (acts[0].Sched? ==> Loadable(acts[0].e)) && ActsOk(After(s, acts[0]), acts[1..])
    requires var a := acts[0];
      ops == Due(After(s, a), if a.Show? && a.t < 3 then a.t else displayed, acts[1..], t)
    ensures Due(s, displayed, acts, t) == OwnOp(s, displayed, acts[0], t) + ops
  {
    assert [] + ops == ops;
  }
}
