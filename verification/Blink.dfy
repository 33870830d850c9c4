/** The blink list: entries that toggle a screen character on a countdown, kept in a
    linked list threaded through a pool of 2000 slots where location 0 means free. */
module Blink {
  import opened Arithmetic

  type Byte = b: int | 0 <= b < 256
  type Word = w: int | 0 <= w < 0x10000

  const POOL := 2000
  const CELLS := 2000  // 80 x 25
  const NULL := -1

  datatype Entry = Entry(
    location: Word, onChar: Byte, offChar: Byte, onLength: Word, offLength: Word,
    countdown: Word, status: Word)

  datatype Event =
    | Add(e: Entry)
    | Remove(location: Word)
    | Sync(from: Word, to: Word)
    | Tick

  // ----- one entry

  predicate IsOn(e: Entry) { e.status % 2 == 1 }

  function Flip(w: Word): Word { if w % 2 == 1 then w - 1 else w + 1 }

  /** 16-bit decrement. */
  function Decremented(w: Word): Word { if w == 0 then 0xFFFF else w - 1 }

  /** The toggle happens unless the decremented countdown is positive as a signed word. */
  predicate Toggles(e: Entry) { !(0 < Decremented(e.countdown) < 0x8000) }

  function TickEntry(e: Entry): Entry {
    if Toggles(e) then
      e.(countdown := if IsOn(e) then e.offLength else e.onLength, status := Flip(e.status))
    else e.(countdown := Decremented(e.countdown))
  }

  function TickN(e: Entry, n: nat): Entry {
    if n == 0 then e else TickEntry(TickN(e, n - 1))
  }

  /** The ticks a countdown of w lasts: w itself up to 0x8000, one beyond that or for zero. */
  function Lasts(w: Word): (n: int)
    ensures 1 <= n <= 0x8000
    ensures 1 <= w <= 0x8000 <==> n == w
  {
    if 1 <= w <= 0x8000 then w else 1
  }

  function Fresh(e: Entry): Entry { e.(status := 1, countdown := e.onLength) }

  lemma TickClock(e: Entry)
    ensures var r := TickEntry(e);
      if Lasts(e.countdown) > 1 then Lasts(r.countdown) == Lasts(e.countdown) - 1 && IsOn(r) == IsOn(e)
      else IsOn(r) != IsOn(e) && r.countdown == if IsOn(e) then e.offLength else e.onLength
    ensures 1 < e.countdown <= 0x8000 ==> TickEntry(e).countdown == e.countdown - 1
  {
  }

  /** Phase law: n ticks after it was added an entry is on iff n modulo the full period
      falls in the on part, and the ticks left before it toggles again are the rest of
      that part. With both lengths in 1..0x8000 the period is on + off and the countdown
      itself is the distance to the next toggle. */
  lemma {:induction false} PhaseLaw(e: Entry, n: nat)
    ensures var on, off := Lasts(e.onLength), Lasts(e.offLength);
      var r, m := TickN(Fresh(e), n), n % (on + off);
      && r.location == e.location && r.onLength == e.onLength && r.offLength == e.offLength
      && r.onChar == e.onChar && r.offChar == e.offChar && r.status <= 1
      && (IsOn(r) <==> m < on)
      && Lasts(r.countdown) == (if m < on then on - m else on + off - m)
      && (1 <= e.onLength <= 0x8000 && 1 <= e.offLength <= 0x8000 ==> r.countdown == Lasts(r.countdown))
  {
    if n > 0 {
      PhaseLaw(e, n - 1);
      TickClock(TickN(Fresh(e), n - 1));
      DivNext(n - 1, Lasts(e.onLength) + Lasts(e.offLength));
    }
  }

  ghost predicate SameClock(a: Entry, b: Entry) {
    && a.onLength == b.onLength && a.offLength == b.offLength
    && a.countdown == b.countdown && a.status == b.status
  }

  lemma {:induction false} SameClockForever(a: Entry, b: Entry, n: nat)
    requires SameClock(a, b)
    ensures SameClock(TickN(a, n), TickN(b, n))
  {
    if n > 0 {
      SameClockForever(a, b, n - 1);
    }
  }

  // ----- the list as a sequence of entries, newest first

  /** Index of the first entry at the location, |es| if there is none. */
  function First(es: seq<Entry>, location: Word): (i: nat)
    ensures i <= |es|
    ensures i < |es| ==> es[i].location == location
    ensures forall j :: 0 <= j < i ==> es[j].location != location
  {
    if es == [] || es[0].location == location then 0 else 1 + First(es[1..], location)
  }

  function Synced(to: Entry, from: Entry): Entry {
    to.(onLength := from.onLength, offLength := from.offLength,
        countdown := from.countdown, status := from.status)
  }

  function TickAll(es: seq<Entry>): (r: seq<Entry>)
    ensures |r| == |es|
  {
    seq(|es|, i requires 0 <= i < |es| => TickEntry(es[i]))
  }

  predicate Accepts(es: seq<Entry>, e: Entry) { e.location < CELLS && |es| < POOL }

  function Step(es: seq<Entry>, event: Event): seq<Entry> {
    match event
    case Add(e) => if Accepts(es, e) then [Fresh(e)] + es else es
    case Remove(l) =>
      var i := First(es, l);
      if i == |es| then es else es[..i] + es[i + 1..]
    case Sync(a, b) =>
      var i, j := First(es, a), First(es, b);
      if i == |es| || j == |es| then es else es[j := Synced(es[j], es[i])]
    case Tick => TickAll(es)
  }

  function Run(es: seq<Entry>, events: seq<Event>): seq<Entry>
    decreases |events|
  {
    if events == [] then es else Run(Step(es, events[0]), events[1..])
  }

  function Ticks(events: seq<Event>): nat {
    if events == [] then 0 else (if events[0].Tick? then 1 else 0) + Ticks(events[1..])
  }

  /** No event adds at, removes, or writes the clock of the entry at the location. */
  predicate LeavesAlone(event: Event, location: Word) {
    match event
    case Add(e) => e.location != location
    case Remove(l) => l != location
    case Sync(_, b) => b != location
    case Tick => true
  }

  ghost predicate AllLeaveAlone(events: seq<Event>, location: Word) {
    forall i :: 0 <= i < |events| ==> LeavesAlone(events[i], location)
  }

  /** The entry found at a location. */
  function At(es: seq<Entry>, location: Word): Entry
    requires First(es, location) < |es|
  {
    es[First(es, location)]
  }

  lemma FirstIs(es: seq<Entry>, location: Word, i: nat)
    requires i < |es| && es[i].location == location
    requires forall j :: 0 <= j < i ==> es[j].location != location
    ensures First(es, location) == i
  {
  }

  /** Removing what was just added gives back the list, entry by entry. */
  lemma RemoveUndoesAdd(es: seq<Entry>, e: Entry)
    requires e.location < 2000 && |es| < 2000
    ensures Step(Step(es, Add(e)), Remove(e.location)) == es
    ensures |Step(es, Add(e))| == |es| + 1
  {
    var r := Step(es, Add(e));
    FirstIs(r, e.location, 0);
    assert r[..0] + r[1..] == es;
  }

  /** ADD is refused off the screen and when 2000 entries are there, and then changes nothing. */
  lemma RefusedIff(es: seq<Entry>, e: Entry)
    ensures Step(es, Add(e)) == es <==> e.location >= 2000 || |es| >= 2000
  {
    assert Accepts(es, e) ==> |[Fresh(e)] + es| == |es| + 1;
  }

  /** REMOVE takes out one entry at the location, the first, and no other. */
  lemma RemoveTakesOne(es: seq<Entry>, l: Word, i: nat)
    requires i < |es| && es[i].location == l && forall j :: 0 <= j < i ==> es[j].location != l
    ensures Step(es, Remove(l)) == es[..i] + es[i + 1..]
  {
    FirstIs(es, l, i);
  }

  /** SYNC gives one entry the other's lengths, countdown and status; it keeps its place and
      characters, and every other entry all of its own. */
  lemma SyncCopiesOne(es: seq<Entry>, a: Word, b: Word, i: nat, j: nat)
    requires i < |es| && es[i].location == a && forall k :: 0 <= k < i ==> es[k].location != a
    requires j < |es| && es[j].location == b && forall k :: 0 <= k < j ==> es[k].location != b
    ensures |Step(es, Sync(a, b))| == |es|
    ensures forall k :: 0 <= k < |es| && k != j ==> Step(es, Sync(a, b))[k] == es[k]
    ensures Step(es, Sync(a, b))[j] == Entry(b, es[j].onChar, es[j].offChar,
                es[i].onLength, es[i].offLength, es[i].countdown, es[i].status)
  {
    FirstIs(es, a, i);
    FirstIs(es, b, j);
  }

  /** Neither does anything when an entry it names is missing. */
  lemma MissingChangesNothing(es: seq<Entry>, a: Word, b: Word)
    requires forall k :: 0 <= k < |es| ==> es[k].location != a
    ensures Step(es, Remove(a)) == es && Step(es, Sync(a, b)) == es && Step(es, Sync(b, a)) == es
  {
    assert First(es, a) == |es|;
  }

  lemma RemovedElsewhere(es: seq<Entry>, k: nat, location: Word)
    requires First(es, location) < |es| && k < |es| && es[k].location != location
    ensures var r := es[..k] + es[k + 1..];
      First(r, location) < |r| && At(r, location) == At(es, location)
  {
    var i, r := First(es, location), es[..k] + es[k + 1..];
    FirstIs(r, location, if k < i then i - 1 else i);
  }

  lemma StepElsewhere(es: seq<Entry>, event: Event, location: Word)
    requires First(es, location) < |es| && LeavesAlone(event, location)
    ensures var r := Step(es, event);
      First(r, location) < |r| &&
      At(r, location) == if event.Tick? then TickEntry(At(es, location)) else At(es, location)
  {
    var i := First(es, location);
    match event
    case Add(e) =>
      if Accepts(es, e) {
        FirstIs([Fresh(e)] + es, location, i + 1);
      }
    case Remove(l) =>
      if First(es, l) < |es| {
        RemovedElsewhere(es, First(es, l), location);
      }
    case Sync(a, b) =>
      var k := First(es, b);
      if k < |es| && First(es, a) < |es| {
        FirstIs(es[k := Synced(es[k], es[First(es, a)])], location, i);
      }
    case Tick =>
      FirstIs(TickAll(es), location, i);
  }

  lemma {:induction false} RunElsewhere(es: seq<Entry>, events: seq<Event>, location: Word)
    requires First(es, location) < |es|
    requires AllLeaveAlone(events, location)
    ensures var r := Run(es, events);
      First(r, location) < |r| && At(r, location) == TickN(At(es, location), Ticks(events))
    decreases |events|
  {
    if events != [] {
      var next, rest := Step(es, events[0]), events[1..];
      assert AllLeaveAlone(rest, location) && LeavesAlone(events[0], location);
      StepElsewhere(es, events[0], location);
      RunElsewhere(next, rest, location);
      TicksOn(At(es, location), events);
    }
  }

  lemma TicksOn(e: Entry, events: seq<Event>)
    requires events != []
    ensures TickN(e, Ticks(events)) == TickN(if events[0].Tick? then TickEntry(e) else e, Ticks(events[1..]))
  {
    TickNShift(e, Ticks(events[1..]));
  }

  lemma {:induction false} TickNShift(e: Entry, n: nat)
    ensures TickN(TickEntry(e), n) == TickN(e, n + 1)
  {
    if n > 0 {
      TickNShift(e, n - 1);
    }
  }

  /** The phase law over whole runs: whatever is added, removed or synced elsewhere, an
      added entry depends on the number of ticks alone. */
  lemma PhaseOverRuns(es: seq<Entry>, e: Entry, events: seq<Event>)
    requires Accepts(es, e)
    requires AllLeaveAlone(events, e.location)
    ensures var r, on, off := Run(Step(es, Add(e)), events), Lasts(e.onLength), Lasts(e.offLength);
      var m := Ticks(events) % (on + off);
      && First(r, e.location) < |r|
      && (IsOn(At(r, e.location)) <==> m < on)
      && Lasts(At(r, e.location).countdown) == (if m < on then on - m else on + off - m)
      && (1 <= e.onLength <= 0x8000 && 1 <= e.offLength <= 0x8000 ==>
            At(r, e.location).countdown == Lasts(At(r, e.location).countdown))
  {
    FirstIs(Step(es, Add(e)), e.location, 0);
    RunElsewhere(Step(es, Add(e)), events, e.location);
    PhaseLaw(e, Ticks(events));
  }

  /** Two entries just synced keep the same status and countdown until another operation
      touches one of them. */
  lemma SyncedOverRuns(es: seq<Entry>, a: Word, b: Word, events: seq<Event>)
    requires First(es, a) < |es| && First(es, b) < |es|
    requires AllLeaveAlone(events, a) && AllLeaveAlone(events, b)
    ensures var r := Run(Step(es, Sync(a, b)), events);
      && First(r, a) < |r| && First(r, b) < |r|
      && SameClock(At(r, a), At(r, b))
  {
    var i, j := First(es, a), First(es, b);
    var r := Step(es, Sync(a, b));
    FirstIs(r, a, i);
    FirstIs(r, b, j);
    RunElsewhere(r, events, a);
    RunElsewhere(r, events, b);
    SameClockForever(At(r, a), At(r, b), Ticks(events));
  }

  // ----- the screen

  function Glyph(e: Entry): Byte { if IsOn(e) then e.onChar else e.offChar }

  type Video = v: seq<Byte> | |v| == 2 * CELLS witness seq(2 * CELLS, _ => 0)

  ghost predicate InRange(es: seq<Entry>) {
    forall i :: 0 <= i < |es| ==> 0 < es[i].location < CELLS
  }

  ghost predicate Apart(es: seq<Entry>) {
    forall i, j :: 0 <= i < j < |es| ==> es[i].location != es[j].location
  }

  /** Every entry's cell shows its current character. */
  ghost predicate Shown(v: Video, es: seq<Entry>)
    requires InRange(es)
  {
    forall i :: 0 <= i < |es| ==> v[2 * es[i].location] == Glyph(es[i])
  }

  /** The cells a tick pokes, in list order. */
  function Poked(v: Video, es: seq<Entry>): (r: Video)
    requires InRange(es)
  {
    if es == [] then v
    else
      var front, e := es[..|es| - 1], es[|es| - 1];
      var w := Poked(v, front);
      if Toggles(e) then w[2 * e.location := if IsOn(e) then e.offChar else e.onChar] else w
  }

  function PokedStep(v: Video, es: seq<Entry>, event: Event): Video
    requires InRange(es)
  {
    match event
    case Add(e) => if Accepts(es, e) then v[2 * e.location := e.onChar] else v
    case Remove(_) => v
    case Sync(a, b) =>
      var j := First(es, b);
      // The conditional move never fires, so the off character is written.
      if First(es, a) == |es| || j == |es| then v else v[2 * b := es[j].offChar]
    case Tick => Poked(v, es)
  }

  lemma {:induction false} PokedAt(v: Video, es: seq<Entry>, i: nat)
    requires InRange(es) && Apart(es) && i < |es|
    ensures Poked(v, es)[2 * es[i].location] ==
            if Toggles(es[i]) then Glyph(TickEntry(es[i])) else v[2 * es[i].location]
    decreases |es|
  {
    var front := es[..|es| - 1];
    if i < |front| {
      PokedAt(v, front, i);
    } else {
      PokedOff(v, front, es[i].location);
    }
  }

  lemma {:induction false} PokedOff(v: Video, es: seq<Entry>, location: Word)
    requires InRange(es) && location < CELLS
    requires forall i :: 0 <= i < |es| ==> es[i].location != location
    ensures Poked(v, es)[2 * location] == v[2 * location]
  {
    if es != [] {
      PokedOff(v, es[..|es| - 1], location);
    }
  }

  /** Entries in range and apart, each shown by its cell. */
  ghost predicate Faithful(v: Video, es: seq<Entry>) {
    InRange(es) && Apart(es) && Shown(v, es)
  }

  lemma AddFaithful(v: Video, es: seq<Entry>, e: Entry)
    requires Faithful(v, es) && 0 < e.location && First(es, e.location) == |es|
    ensures Faithful(PokedStep(v, es, Add(e)), Step(es, Add(e)))
  {
    if Accepts(es, e) {
      ApartPushed(es, Fresh(e));
      ShownPushed(v, es, e);
    }
  }

  lemma ApartPushed(es: seq<Entry>, e: Entry)
    requires InRange(es) && Apart(es) && 0 < e.location < CELLS && First(es, e.location) == |es|
    ensures InRange([e] + es) && Apart([e] + es)
  {
    var r := [e] + es;
    assert forall i :: 0 < i < |r| ==> r[i] == es[i - 1];
  }

  lemma ShownPushed(v: Video, es: seq<Entry>, e: Entry)
    requires Faithful(v, es) && 0 < e.location < CELLS && First(es, e.location) == |es|
    requires InRange([Fresh(e)] + es)
    ensures Shown(v[2 * e.location := e.onChar], [Fresh(e)] + es)
  {
    var r, w := [Fresh(e)] + es, v[2 * e.location := e.onChar];
    forall i | 0 <= i < |r|
      ensures w[2 * r[i].location] == Glyph(r[i])
    {
      assert i > 0 ==> r[i] == es[i - 1];
    }
  }

  lemma RemoveFaithful(v: Video, es: seq<Entry>, l: Word)
    requires Faithful(v, es)
    ensures Faithful(v, Step(es, Remove(l)))
  {
    if First(es, l) < |es| {
      DroppedFaithful(v, es, First(es, l));
    }
  }

  lemma DroppedFaithful(v: Video, es: seq<Entry>, i: nat)
    requires Faithful(v, es) && i < |es|
    ensures Faithful(v, es[..i] + es[i + 1..])
  {
    var r := es[..i] + es[i + 1..];
    forall k | 0 <= k < |r|
      ensures r[k] == es[if k < i then k else k + 1]
    {
    }
    forall j, k | 0 <= j < k < |r|
      ensures r[j].location != r[k].location
    {
      assert r[j] == es[if j < i then j else j + 1] && r[k] == es[if k < i then k else k + 1];
    }
  }

  lemma TickFaithful(v: Video, es: seq<Entry>)
    requires Faithful(v, es)
    ensures Faithful(Poked(v, es), TickAll(es))
  {
    forall i | 0 <= i < |es|
      ensures Poked(v, es)[2 * es[i].location] == Glyph(TickEntry(es[i]))
    {
      PokedAt(v, es, i);
    }
  }

  /** A new entry takes a free, non-zero location, and nothing is synced. */
  ghost predicate Tame(es: seq<Entry>, event: Event) {
    !event.Sync? && (event.Add? ==> 0 < event.e.location && First(es, event.e.location) == |es|)
  }

  ghost predicate AllTame(es: seq<Entry>, events: seq<Event>)
    decreases |events|
  {
    events != [] ==> Tame(es, events[0]) && AllTame(Step(es, events[0]), events[1..])
  }

  function Screen(v: Video, es: seq<Entry>, events: seq<Event>): Video
    requires Faithful(v, es) && AllTame(es, events)
    decreases |events|
  {
    if events == [] then v
    else
      FaithfulStep(v, es, events[0]);
      Screen(PokedStep(v, es, events[0]), Step(es, events[0]), events[1..])
  }

  lemma FaithfulStep(v: Video, es: seq<Entry>, event: Event)
    requires Faithful(v, es) && Tame(es, event)
    ensures Faithful(PokedStep(v, es, event), Step(es, event))
  {
    match event
    case Add(e) => AddFaithful(v, es, e);
    case Remove(l) => RemoveFaithful(v, es, l);
    case Tick => TickFaithful(v, es);
  }

  /** The screen shows every entry's current character after any run without SYNC in
      which no two entries share a location. */
  lemma {:induction false} ScreenFollowsEntries(v: Video, es: seq<Entry>, events: seq<Event>)
    requires Faithful(v, es) && AllTame(es, events)
    ensures Faithful(Screen(v, es, events), Run(es, events))
    decreases |events|
  {
    if events != [] {
      FaithfulStep(v, es, events[0]);
      ScreenFollowsEntries(PokedStep(v, es, events[0]), Step(es, events[0]), events[1..]);
    }
  }

  /** SYNC shows the off character whatever the status it copies: right exactly when the
      copied status is off or the two characters are the same. */
  lemma SyncShownIff(v: Video, es: seq<Entry>, a: Word, b: Word)
    requires Faithful(v, es)
    requires First(es, a) < |es| && First(es, b) < |es|
    ensures InRange(Step(es, Sync(a, b)))
    ensures Shown(PokedStep(v, es, Sync(a, b)), Step(es, Sync(a, b))) <==>
            !IsOn(At(es, a)) || At(es, b).onChar == At(es, b).offChar
  {
    var i, j := First(es, a), First(es, b);
    var r, w := Step(es, Sync(a, b)), PokedStep(v, es, Sync(a, b));
    assert r[j] == Synced(es[j], es[i]);
    assert w[2 * r[j].location] == es[j].offChar;
    forall k | 0 <= k < |es| && k != j
      ensures w[2 * r[k].location] == Glyph(r[k])
    {
      assert es[k].location != es[j].location;
    }
  }
}
