/** The virtual real-time clock: the hardware ticks 1024 times a second and every terminal
    divides that down to its own frequency. */
module Rtc {
  import opened Arithmetic

  const HW_FREQ := 1024
  const DEFAULT_FREQ := 2
  const TERMINALS := 3
  const TWO32 := 0x1_0000_0000

  type U32 = x: int | 0 <= x < TWO32

  /** One terminal's divider; `waiting` is the flag a read spins on. */
  datatype Clock = Clock(counter: U32, target: U32, waiting: bool, on: bool)

  datatype Event =
    | Tick
    | Rate(t: int, freq: int)
    | Wait(t: int)

  function HzToBin(freq: int): (r: int)
    ensures r != 0 ==> 2 <= freq <= HW_FREQ
  {
    if freq == 1024 then 0x06
    else if freq == 512 then 0x07
    else if freq == 256 then 0x08
    else if freq == 128 then 0x09
    else if freq == 64 then 0x0A
    else if freq == 32 then 0x0B
    else if freq == 16 then 0x0C
    else if freq == 8 then 0x0D
    else if freq == 4 then 0x0E
    else if freq == 2 then 0x0F
    else 0
  }

  function Pow2(n: nat): (r: int)
    ensures 0 < r
  {
    if n == 0 then 1 else 2 * Pow2(n - 1)
  }

  /** The accepted frequencies are the powers of two from 2 to 1024; the code is the chip's
      rate, which divides its 32768 Hz base down to exactly that frequency. */
  lemma RateCode(freq: int)
    ensures HzToBin(freq) != 0 <==> exists k :: 1 <= k <= 10 && freq == Pow2(k)
    ensures HzToBin(freq) != 0 ==> freq * Pow2(HzToBin(freq) - 1) == 32768
    ensures HzToBin(freq) != 0 ==> freq * (HW_FREQ / freq) == HW_FREQ
  {
    assert Pow2(1) == 2 && Pow2(2) == 4 && Pow2(3) == 8 && Pow2(4) == 16 && Pow2(5) == 32;
    assert Pow2(6) == 64 && Pow2(7) == 128 && Pow2(8) == 256 && Pow2(9) == 512 && Pow2(10) == 1024;
    assert Pow2(11) == 2048 && Pow2(12) == 4096 && Pow2(13) == 8192 && Pow2(14) == 16384;
  }

  // ----- one divider

  ghost predicate Safe(c: Clock) { 1 <= c.counter <= c.target <= HW_FREQ }

  function Dec32(x: U32): U32 { if x == 0 then TWO32 - 1 else x - 1 }

  function TickClock(c: Clock): Clock {
    if !c.on then c
    else if Dec32(c.counter) == 0 then c.(counter := c.target, waiting := false)
    else c.(counter := Dec32(c.counter))
  }

  function TickN(c: Clock, n: nat): Clock {
    if n == 0 then c else TickClock(TickN(c, n - 1))
  }

  /** How often the divider reaches zero within n ticks. */
  function Interrupts(c: Clock, n: nat): nat {
    if n == 0 then 0
    else Interrupts(c, n - 1) + if TickN(c, n - 1).on && Dec32(TickN(c, n - 1).counter) == 0 then 1 else 0
  }

  /** The divider law: after n ticks there were (n + target - counter) / target interrupts,
      and the counter is what is left of the current round. */
  lemma {:induction false} DividerLaw(c: Clock, n: nat)
    requires Safe(c) && c.on
    ensures var r, e := TickN(c, n), n + c.target - c.counter;
      && Safe(r) && r.on && r.target == c.target
      && r.counter == c.target - e % c.target
      && Interrupts(c, n) == e / c.target
      && (r.waiting <==> c.waiting && Interrupts(c, n) == 0)
  {
    if n == 0 {
      var e := c.target - c.counter;
      DivMod(0, c.target, e);
    } else {
      DividerLaw(c, n - 1);
      DivNext(n - 1 + c.target - c.counter, c.target);
    }
  }

  /** A round is complete from p ticks on. */
  lemma Rounds(e: nat, p: int)
    requires 0 < p
    ensures e / p == 0 <==> e < p
  {
    QuotientNat(e, p);
    if e < p {
      DivMod(0, p, e);
    }
  }

  /** Every stretch of 1024 hardware ticks carries exactly `freq` interrupts. */
  lemma FreqPerSecond(c: Clock, freq: int)
    requires HzToBin(freq) != 0 && c.on && c.target == HW_FREQ / freq && 1 <= c.counter <= c.target
    ensures Interrupts(c, HW_FREQ) == freq
  {
    RateCode(freq);
    assert c.target <= HW_FREQ;
    DividerLaw(c, HW_FREQ);
    DivMod(freq, c.target, c.target - c.counter);
  }

  // ----- the three dividers together

  function Reset(c: Clock, freq: int): Clock {
    if HzToBin(freq) == 0 then c else c.(counter := HW_FREQ / freq, target := HW_FREQ / freq)
  }

  function Step(s: seq<Clock>, e: Event): seq<Clock>
    requires |s| == TERMINALS && (!e.Tick? ==> 0 <= e.t < TERMINALS)
  {
    match e
    case Tick => [TickClock(s[0]), TickClock(s[1]), TickClock(s[2])]
    case Rate(t, freq) => s[t := Reset(s[t], freq)]
    case Wait(t) => s[t := s[t].(waiting := true)]
  }

  ghost predicate EventsOk(es: seq<Event>) {
    forall i :: 0 <= i < |es| ==> !es[i].Tick? ==> 0 <= es[i].t < TERMINALS
  }

  function Run(s: seq<Clock>, es: seq<Event>): (r: seq<Clock>)
    requires |s| == TERMINALS && EventsOk(es)
    ensures |r| == TERMINALS
    decreases |es|
  {
    if es == [] then s else Run(Step(s, es[0]), es[1..])
  }

  function Ticks(es: seq<Event>): nat {
    if es == [] then 0 else (if es[0].Tick? then 1 else 0) + Ticks(es[1..])
  }

  lemma {:induction false} TickNShift(c: Clock, n: nat)
    ensures TickN(TickClock(c), n) == TickN(c, n + 1)
  {
    if n > 0 {
      TickNShift(c, n - 1);
    }
  }

  lemma {:induction false} OwnTicksOnly(s: seq<Clock>, es: seq<Event>, t: int)
    requires |s| == TERMINALS && EventsOk(es) && 0 <= t < TERMINALS
    requires forall i :: 0 <= i < |es| ==> !es[i].Tick? ==> es[i].t != t
    ensures Run(s, es)[t] == TickN(s[t], Ticks(es))
    decreases |es|
  {
    if es != [] {
      OwnTicksOnly(Step(s, es[0]), es[1..], t);
      if es[0].Tick? {
        TickNShift(s[t], Ticks(es[1..]));
      }
    }
  }

  lemma WaitsFor(c: Clock, n: nat)
    requires Safe(c) && c.on && c.waiting
    ensures TickN(c, n).waiting <==> n < c.counter
  {
    DividerLaw(c, n);
    Rounds(n + c.target - c.counter, c.target);
  }

  /** A read on terminal t returns after exactly as many ticks as its counter held,
      whatever the other terminals do meanwhile. */
  lemma ReadReturnsOnTime(s: seq<Clock>, es: seq<Event>, t: int)
    requires |s| == TERMINALS && EventsOk(es) && 0 <= t < TERMINALS && Safe(s[t]) && s[t].on
    requires forall i :: 0 <= i < |es| ==> !es[i].Tick? ==> es[i].t != t
    ensures Run(Step(s, Wait(t)), es)[t].waiting <==> Ticks(es) < s[t].counter
  {
    OwnTicksOnly(Step(s, Wait(t)), es, t);
    WaitsFor(s[t].(waiting := true), Ticks(es));
  }

  lemma {:induction false} AlwaysSafe(s: seq<Clock>, es: seq<Event>)
    requires |s| == TERMINALS && EventsOk(es)
    requires forall t :: 0 <= t < TERMINALS ==> Safe(s[t])
    ensures forall t :: 0 <= t < TERMINALS ==> Safe(Run(s, es)[t])
    decreases |es|
  {
    if es != [] {
      AlwaysSafe(Step(s, es[0]), es[1..]);
    }
  }

  // ----- what a write brings about

  /** Written with an accepted frequency a clock interrupts exactly that often in every 1024
      hardware ticks from then on; any other frequency leaves it as it was. */
  lemma RateGivesFreq(c: Clock, freq: int, before: nat)
    requires c.on
    ensures HzToBin(freq) != 0 ==> Interrupts(TickN(Reset(c, freq), before), HW_FREQ) == freq
    ensures HzToBin(freq) == 0 ==> Reset(c, freq) == c
  {
    if HzToBin(freq) != 0 {
      ResetIsSafe(c, freq);
      DividerLaw(Reset(c, freq), before);
      FreqPerSecond(TickN(Reset(c, freq), before), freq);
    }
  }

  lemma ResetIsSafe(c: Clock, freq: int)
    requires HzToBin(freq) != 0
    ensures var r := Reset(c, freq); Safe(r) && r.target == HW_FREQ / freq && r.on == c.on && r.waiting == c.waiting
  {
    RateCode(freq);
  }

  /** The interrupts of terminal t during a run. */
  function InterruptsOf(s: seq<Clock>, es: seq<Event>, t: int): nat
    requires |s| == TERMINALS && EventsOk(es) && 0 <= t < TERMINALS
    decreases |es|
  {
    if es == [] then 0
    else
      (if es[0].Tick? && s[t].on && Dec32(s[t].counter) == 0 then 1 else 0)
        + InterruptsOf(Step(s, es[0]), es[1..], t)
  }

  ghost predicate NothingOn(es: seq<Event>, t: int) {
    forall i :: 0 <= i < |es| ==> !es[i].Tick? ==> es[i].t != t
  }

  lemma {:induction false} InterruptsShift(c: Clock, n: nat)
    ensures Interrupts(c, n + 1) == (if c.on && Dec32(c.counter) == 0 then 1 else 0) + Interrupts(TickClock(c), n)
  {
    if n > 0 {
      InterruptsShift(c, n - 1);
      TickNShift(c, n - 1);
    }
  }

  lemma {:induction false} InterruptsElsewhere(s: seq<Clock>, es: seq<Event>, t: int)
    requires |s| == TERMINALS && EventsOk(es) && 0 <= t < TERMINALS && NothingOn(es, t)
    ensures InterruptsOf(s, es, t) == Interrupts(s[t], Ticks(es))
    decreases |es|
  {
    if es != [] {
      InterruptsElsewhere(Step(s, es[0]), es[1..], t);
      if es[0].Tick? {
        InterruptsShift(s[t], Ticks(es[1..]));
      }
    }
  }

  /** After a write of an accepted frequency on an initialised terminal, and anything on the
      others since, every stretch of 1024 hardware ticks brings exactly that many interrupts. */
  lemma RateOverRuns(s: seq<Clock>, t: int, freq: int, since: seq<Event>, stretch: seq<Event>)
    requires |s| == TERMINALS && 0 <= t < TERMINALS && s[t].on && HzToBin(freq) != 0
    requires EventsOk(since) && EventsOk(stretch) && NothingOn(since, t) && NothingOn(stretch, t)
    requires Ticks(stretch) == 1024
    ensures InterruptsOf(Run(Step(s, Rate(t, freq)), since), stretch, t) == freq
  {
    var s1 := Step(s, Rate(t, freq));
    OwnTicksOnly(s1, since, t);
    InterruptsElsewhere(Run(s1, since), stretch, t);
    RateGivesFreq(s[t], freq, Ticks(since));
  }

  /** A terminal that is not initialised has its clock left alone. */
  lemma {:induction false} OffStays(c: Clock, n: nat)
    requires !c.on
    ensures TickN(c, n) == c && Interrupts(c, n) == 0
  {
    if n > 0 {
      OffStays(c, n - 1);
    }
  }

  // ----- the driver

  class Driver {
    const counter: array<U32>
    const target: array<U32>
    const flag: array<int>
    const init: array<int>
    var active: int

    ghost predicate Valid()
      reads this
    {
      && counter.Length == target.Length == flag.Length == init.Length == TERMINALS
      && counter != target && flag != init
      && 0 <= active < TERMINALS
    }

    ghost function ClockOf(t: int): Clock
      requires Valid() && 0 <= t < TERMINALS
      reads this, counter, target, flag, init
    {
      Clock(counter[t], target[t], flag[t] == 1, init[t] == 1)
    }

    ghost function Clocks(): seq<Clock>
      requires Valid()
      reads this, counter, target, flag, init
    {
      [ClockOf(0), ClockOf(1), ClockOf(2)]
    }

    constructor ()
      ensures Valid() && active == 0
      ensures Clocks() == seq(TERMINALS, _ => Clock(HW_FREQ / DEFAULT_FREQ, HW_FREQ / DEFAULT_FREQ, false, false))
    {
      counter := new U32[TERMINALS](_ => HW_FREQ / DEFAULT_FREQ);
      target := new U32[TERMINALS](_ => HW_FREQ / DEFAULT_FREQ);
      flag := new int[TERMINALS](_ => 0);
      init := new int[TERMINALS](_ => 0);
      active := 0;
    }

    method ChangeFreqVirt(freq: int)
      requires Valid()
      modifies counter, target
      ensures Clocks() == Step(old(Clocks()), Rate(active, freq))
      ensures HzToBin(freq) != 0 ==> counter[active] == target[active] == 1024 / freq
      ensures HzToBin(freq) == 0 ==> Clocks() == old(Clocks())
    {
      if HzToBin(freq) == 0 {
        return;
      }
      counter[active] := HW_FREQ / freq;
      target[active] := HW_FREQ / freq;
    }

    method RtcIntr()
      requires Valid()
      modifies counter, flag
      ensures Clocks() == Step(old(Clocks()), Tick)
    {
      var i := 0;
      while i < TERMINALS
        invariant 0 <= i <= TERMINALS
        invariant forall t :: 0 <= t < TERMINALS ==>
          ClockOf(t) == if t < i then TickClock(old(ClockOf(t))) else old(ClockOf(t))
      {
        if init[i] == 1 {
          counter[i] := Dec32(counter[i]);
          if counter[i] <= 0 {
            flag[i] := 0;
            counter[i] := target[i];
          }
        }
        i := i + 1;
      }
    }

    /** The first half of rtc_read; the second spins until the flag is cleared. */
    method StartRead()
      requires Valid()
      modifies flag
      ensures Clocks() == Step(old(Clocks()), Wait(active))
    {
      flag[active] := 1;
    }

    method RtcWrite(freq: int) returns (r: int)
      requires Valid()
      modifies counter, target
      ensures r == if HzToBin(freq) == 0 then -1 else 4
      ensures Clocks() == Step(old(Clocks()), Rate(active, freq))
      ensures HzToBin(freq) != 0 ==> counter[active] == target[active] == 1024 / freq
      ensures HzToBin(freq) == 0 ==> Clocks() == old(Clocks())
    {
      if HzToBin(freq) == 0 {
        return -1;
      }
      ChangeFreqVirt(freq);
      return 4;
    }
  }
}
