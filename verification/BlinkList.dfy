/** The blink entries as the program keeps them: pool slots chained by their next field,
    with the three ioctls and the tick handler working on them in place. */
module BlinkList {
  import opened Blink

  datatype Slot = Slot(e: Entry, next: int)

  const ZERO := Slot(Entry(0, 0, 0, 0, 0, 0, 0), NULL)

  /** The i-th pointer on the way through the list. */
  function Link(list: seq<int>, i: nat): int {
    if i < |list| then list[i] else NULL
  }

  /** Following next from p visits exactly `list`, no slot twice, and ends. */
  ghost predicate Chain(slots: seq<Slot>, p: int, list: seq<int>)
    decreases |list|
  {
    if list == [] then p == NULL
    else
      && p == list[0] && 0 <= p < |slots| && p !in list[1..]
      && 0 < slots[p].e.location < CELLS
      && Chain(slots, slots[p].next, list[1..])
  }

  /** The list holds precisely the slots in use: those with a non-zero location. */
  ghost predicate ListOk(slots: seq<Slot>, head: int, list: seq<int>) {
    && |slots| == POOL && Chain(slots, head, list)
    && forall p :: 0 <= p < POOL ==> (slots[p].e.location != 0 <==> p in list)
  }

  function EntryAt(slots: seq<Slot>, p: int): Entry {
    if 0 <= p < |slots| then slots[p].e else ZERO.e
  }

  function Entries(slots: seq<Slot>, list: seq<int>): (es: seq<Entry>)
    ensures |es| == |list|
  {
    seq(|list|, i requires 0 <= i < |list| => EntryAt(slots, list[i]))
  }

  ghost predicate NoRepeats(list: seq<int>) {
    forall i, j :: 0 <= i < j < |list| ==> list[i] != list[j]
  }

  lemma {:induction false} ChainOnce(slots: seq<Slot>, p: int, list: seq<int>)
    requires Chain(slots, p, list)
    ensures NoRepeats(list)
    ensures forall i :: 0 <= i < |list| ==> 0 <= list[i] < |slots| && 0 < slots[list[i]].e.location < CELLS
    decreases |list|
  {
    if list != [] {
      ChainOnce(slots, slots[p].next, list[1..]);
      forall i | 0 < i < |list|
        ensures list[i] == list[1..][i - 1]
      {
      }
    }
  }

  /** The chain from the i-th pointer on. */
  lemma {:induction false} ChainFrom(slots: seq<Slot>, p: int, list: seq<int>, i: nat)
    requires Chain(slots, p, list) && i <= |list|
    ensures p == Link(list, 0) && Chain(slots, Link(list, i), list[i..])
    ensures i < |list| ==> 0 <= list[i] < |slots| && slots[list[i]].next == Link(list, i + 1)
    decreases |list|
  {
    if i > 0 {
      ChainFrom(slots, slots[p].next, list[1..], i - 1);
      assert list[1..][i - 1..] == list[i..];
      assert Link(list[1..], i - 1) == Link(list, i);
    } else {
      assert list[0..] == list;
    }
  }

  /** A chain depends on its own slots' links and locations only. */
  lemma {:induction false} ChainKept(slots: seq<Slot>, slots': seq<Slot>, p: int, list: seq<int>)
    requires Chain(slots, p, list) && |slots'| == |slots|
    requires forall q :: q in list && 0 <= q < |slots| ==>
      slots'[q].next == slots[q].next && slots'[q].e.location == slots[q].e.location
    ensures Chain(slots', p, list)
    decreases |list|
  {
    if list != [] {
      ChainKept(slots, slots', slots[p].next, list[1..]);
    }
  }

  function Slots(n: nat): (r: set<int>)
    ensures |r| == n
    ensures forall x :: x in r <==> 0 <= x < n
  {
    if n == 0 then {} else Slots(n - 1) + {n - 1}
  }

  function Members(list: seq<int>): (r: set<int>)
    ensures forall x :: x in r <==> x in list
  {
    if list == [] then {} else {list[0]} + Members(list[1..])
  }

  lemma {:induction false} MembersCount(slots: seq<Slot>, p: int, list: seq<int>)
    requires Chain(slots, p, list)
    ensures |Members(list)| == |list|
    decreases |list|
  {
    if list != [] {
      MembersCount(slots, slots[p].next, list[1..]);
    }
  }

  lemma Subset(held: set<int>, all: set<int>)
    requires held <= all
    ensures |held| <= |all| && (|held| == |all| <==> all <= held)
  {
    assert held + (all - held) == all;
    assert |held| + |all - held| == |all|;
  }

  lemma {:induction false} ChainRange(slots: seq<Slot>, p: int, list: seq<int>)
    requires Chain(slots, p, list)
    ensures Members(list) <= Slots(|slots|)
    decreases |list|
  {
    if list != [] {
      ChainRange(slots, slots[p].next, list[1..]);
    }
  }

  /** The list is full exactly when no slot is free. */
  lemma FullIff(slots: seq<Slot>, head: int, list: seq<int>)
    requires ListOk(slots, head, list)
    ensures |list| <= POOL
    ensures |list| == POOL <==> forall p :: 0 <= p < POOL ==> slots[p].e.location != 0
  {
    MembersCount(slots, head, list);
    ChainRange(slots, head, list);
    Subset(Members(list), Slots(POOL));
    CoversIff(slots, list);
  }

  lemma CoversIff(slots: seq<Slot>, list: seq<int>)
    requires |slots| == POOL && forall p :: 0 <= p < POOL ==> (slots[p].e.location != 0 <==> p in list)
    ensures Slots(POOL) <= Members(list) <==> forall p :: 0 <= p < POOL ==> slots[p].e.location != 0
  {
    if Slots(POOL) <= Members(list) {
      forall p | 0 <= p < POOL
        ensures slots[p].e.location != 0
      {
        assert p in Slots(POOL);
      }
    }
  }

  class List {
    const pool: array<Slot>
    const vmem: array<Byte>  // the character bytes and attributes of the mapped screen
    var head: int
    ghost var list: seq<int>

    ghost predicate Valid()
      reads this, pool, vmem
    {
      pool.Length == POOL && vmem.Length == 2 * CELLS && ListOk(pool[..], head, list)
    }

    ghost function Now(): (es: seq<Entry>)
      requires Valid()
      reads this, pool, vmem
      ensures |es| == |list| && InRange(es)
    {
      ChainOnce(pool[..], head, list);
      Entries(pool[..], list)
    }

    constructor ()
      ensures Valid() && Now() == [] && fresh(pool) && fresh(vmem)
    {
      pool := new Slot[POOL](_ => ZERO);
      vmem := new Byte[2 * CELLS](_ => 0);
      head := NULL;
      list := [];
    }

    method Poke(offset: int, c: Byte)
      requires vmem.Length == 2 * CELLS && 0 <= offset < 2 * CELLS
      modifies vmem
      ensures vmem[..] == old(vmem[..])[offset := c]
    {
      vmem[offset] := c;
    }

    method Malloc() returns (p: int)
      requires pool.Length == POOL
      ensures p == NULL ==> forall q :: 0 <= q < POOL ==> pool[q].e.location != 0
      ensures p != NULL ==> 0 <= p < POOL && pool[p].e.location == 0
      ensures p != NULL ==> forall q :: 0 <= q < p ==> pool[q].e.location != 0
    {
      var i := 0;
      while i < POOL
        invariant 0 <= i <= POOL
        invariant forall q :: 0 <= q < i ==> pool[q].e.location != 0
      {
        if pool[i].e.location == 0 {
          return i;
        }
        i := i + 1;
      }
      return NULL;
    }

    method Free(p: int)
      requires pool.Length == POOL && 0 <= p < POOL
      modifies pool
      ensures pool[..] == old(pool[..])[p := ZERO]
    {
      pool[p] := ZERO;
    }

    method FindHelper(location: Word) returns (p: int)
      requires Valid()
      ensures p == Link(list, First(Now(), location))
      ensures p != NULL ==> 0 <= p < POOL && pool[p].e == At(Now(), location)
      ensures p == NULL <==> First(Now(), location) == |Now()|
    {
      p := head;
      ghost var i := 0;
      assert list[0..] == list;
      while p != NULL
        invariant 0 <= i <= |list| && Chain(pool[..], p, list[i..])
        invariant forall j :: 0 <= j < i ==> Now()[j].location != location
        decreases |list| - i
      {
        assert p == list[i..][0] == list[i] && Now()[i] == pool[p].e;
        if location == pool[p].e.location {
          FirstIs(Now(), location, i);
          return p;
        }
        p := pool[p].next;
        assert list[i..][1..] == list[i + 1..];
        i := i + 1;
      }
      assert i == |list|;
    }

    /** ADD: for a non-zero location it fails exactly when the location is off the screen or
        all slots are live. A location of 0 breaks the list unless the pool is full. */
    method IoctlAdd(user: Entry) returns (r: int)
      requires Valid()
      modifies this, pool, vmem
      ensures user.location != 0 ==>
        && Valid() && Now() == Step(old(Now()), Add(user))
        && vmem[..] == PokedStep(old(vmem[..]), old(Now()), Add(user))
      ensures user.location != 0 ==> r == if user.location < 2000 && |old(Now())| < 2000 then 0 else -1
      ensures user.location == 0 ==>
        ((exists l :: ListOk(pool[..], head, l)) <==> |old(list)| == POOL)
    {
      FullIff(pool[..], head, list);
      if user.location >= CELLS {
        return -1;
      }
      var temp := user.(status := 1);
      temp := temp.(countdown := temp.onLength);
      var p := Malloc();
      if p == NULL {
        return -1;
      }
      ghost var slots, was := pool[..], head;
      pool[p] := Slot(temp, NULL);
      pool[p] := pool[p].(next := head);
      head := p;
      list := [p] + list;
      assert pool[..] == slots[p := Slot(Fresh(user), was)];
      if user.location != 0 {
        Pushed(slots, was, old(list), p, Fresh(user));
      } else {
        NoList(pool[..], head);
      }
      Poke(2 * pool[p].e.location, pool[p].e.onChar);
      return 0;
    }

    /** The pointer held at `prev`: head, or the next field of a slot. */
    function Held(prev: int): int
      requires prev == NULL || 0 <= prev < pool.Length
      reads this, pool
    {
      if prev == NULL then head else pool[prev].next
    }

    /** Finds the pointer that holds list[i]; the walk ends because the list reaches it. */
    method FindPrev(p: int, ghost i: nat) returns (prev: int)
      requires Valid() && i < |list| && p == list[i]
      ensures prev == if i == 0 then NULL else list[i - 1]
      ensures prev != NULL ==> 0 <= prev < POOL
    {
      prev := NULL;
      ghost var k := 0;
      ChainOnce(pool[..], head, list);
      while Held(prev) != p
        invariant 0 <= k <= i && prev == (if k == 0 then NULL else list[k - 1])
        invariant Held(prev) == Link(list, k)
        decreases i - k
      {
        prev := Held(prev);
        ChainFrom(pool[..], head, list, k);
        k := k + 1;
      }
    }

    method IoctlRemove(arg: int) returns (r: int)
      requires Valid() && 0 <= arg
      modifies this, pool
      ensures Valid() && Now() == Step(old(Now()), Remove(arg % 0x10000))
      ensures r == if First(old(Now()), arg % 0x10000) < |old(Now())| then 0 else -1
    {
      var p := FindHelper(arg % 0x10000);
      if p == NULL {
        return -1;
      }
      ghost var i, slots := First(Now(), arg % 0x10000), pool[..];
      var prev := FindPrev(p, i);
      if prev == NULL {
        head := pool[p].next;
      } else {
        pool[prev] := pool[prev].(next := pool[p].next);
      }
      Free(p);
      list := list[..i] + list[i + 1..];
      Unlinked(slots, old(head), old(list), i);
      return 0;
    }

    method IoctlSync(arg: int) returns (r: int)
      requires Valid() && 0 <= arg < 0x1_0000_0000
      modifies pool, vmem
      ensures var e := Sync(arg / 0x10000, arg % 0x10000);
        && Valid() && Now() == Step(old(Now()), e)
        && vmem[..] == PokedStep(old(vmem[..]), old(Now()), e)
        && (r == 0 <==> First(old(Now()), e.from) < |old(Now())| && First(old(Now()), e.to) < |old(Now())|)
    {
      var from := FindHelper(arg / 0x10000);
      if from == NULL {
        return -1;
      }
      var to := FindHelper(arg % 0x10000);
      if to == NULL {
        return -1;
      }
      ghost var slots := pool[..];
      pool[to] := pool[to].(e := pool[to].e.(onLength := pool[from].e.onLength));
      pool[to] := pool[to].(e := pool[to].e.(offLength := pool[from].e.offLength));
      pool[to] := pool[to].(e := pool[to].e.(countdown := pool[from].e.countdown));
      pool[to] := pool[to].(e := pool[to].e.(status := pool[from].e.status));
      assert pool[..] == slots[to := Slot(Synced(slots[to].e, slots[from].e), slots[to].next)];
      Rewritten(slots, head, list, First(Entries(slots, list), arg % 0x10000),
                Synced(slots[to].e, slots[from].e));
      Poke(2 * pool[to].e.location, pool[to].e.offChar);
      return 0;
    }

    /** The loop body: one entry counts down and, when due, toggles its cell. */
    method TickSlot(p: int)
      requires pool.Length == POOL && vmem.Length == 2 * CELLS
      requires 0 <= p < POOL && pool[p].e.location < CELLS
      modifies pool, vmem
      ensures pool[..] == old(pool[..])[p := Slot(TickEntry(old(pool[p].e)), old(pool[p].next))]
      ensures var e := old(pool[p].e);
        vmem[..] == if Toggles(e) then old(vmem[..])[2 * e.location := if IsOn(e) then e.offChar else e.onChar]
                    else old(vmem[..])
    {
      pool[p] := pool[p].(e := pool[p].e.(countdown := Decremented(pool[p].e.countdown)));
      if !(0 < pool[p].e.countdown < 0x8000) {
        var length;
        if IsOn(pool[p].e) {
          Poke(2 * pool[p].e.location, pool[p].e.offChar);
          length := pool[p].e.offLength;
        } else {
          Poke(2 * pool[p].e.location, pool[p].e.onChar);
          length := pool[p].e.onLength;
        }
        pool[p] := pool[p].(e := pool[p].e.(countdown := length));
        pool[p] := pool[p].(e := pool[p].e.(status := Flip(pool[p].e.status)));
      }
    }

    /** One turn of the tasklet's loop, at the i-th slot of the list. */
    method TickNext(p: int, ghost es: seq<Entry>, ghost v: Video, ghost i: nat) returns (next: int)
      requires pool.Length == POOL && vmem.Length == 2 * CELLS
      requires i < |list| && p == list[i] && Ticked(pool[..], head, list, es, v, vmem[..], i)
      modifies pool, vmem
      ensures Ticked(pool[..], head, list, es, v, vmem[..], i + 1)
      ensures next == Link(list, i + 1)
    {
      ghost var slots, was := pool[..], vmem[..];
      TickedHere(slots, head, list, es, v, was, i);
      TickSlot(p);
      TickedNext(slots, pool[..], head, list, es, v, was, vmem[..], i);
      next := pool[p].next;
    }

    /** The tasklet's loop. */
    method TickEach(ghost es: seq<Entry>, ghost v: Video)
      requires pool.Length == POOL && vmem.Length == 2 * CELLS
      requires Ticked(pool[..], head, list, es, v, vmem[..], 0)
      modifies pool, vmem
      ensures Ticked(pool[..], head, list, es, v, vmem[..], |list|)
    {
      var p := head;
      ghost var i := 0;
      ChainFrom(pool[..], head, list, 0);
      while p != NULL
        invariant 0 <= i <= |list| && p == Link(list, i)
        invariant Ticked(pool[..], head, list, es, v, vmem[..], i)
        decreases |list| - i
      {
        p := TickNext(p, es, v, i);
        i := i + 1;
      }
      ChainFrom(pool[..], head, list, i);
    }

    method Tasklet()
      requires Valid()
      modifies pool, vmem
      ensures Valid() && Now() == TickAll(old(Now()))
      ensures vmem[..] == Poked(old(vmem[..]), old(Now()))
    {
      ghost var es, v := Now(), vmem[..];
      NoneTicked(pool[..], head, list, es, v);
      TickEach(es, v);
      AllTicked(pool[..], head, list, es, v, vmem[..]);
    }
  }

  lemma NoneTicked(slots: seq<Slot>, head: int, list: seq<int>, es: seq<Entry>, v: Video)
    requires ListOk(slots, head, list) && InRange(es) && es == Entries(slots, list)
    ensures Ticked(slots, head, list, es, v, v, 0)
  {
    assert es[..0] == [] && es[0..] == es && TickAll([]) == [];
  }

  lemma AllTicked(slots: seq<Slot>, head: int, list: seq<int>, es: seq<Entry>, v: Video, now: seq<Byte>)
    requires Ticked(slots, head, list, es, v, now, |list|)
    ensures Entries(slots, list) == TickAll(es) && now == Poked(v, es)
  {
    assert es[..|list|] == es && es[|list|..] == [];
  }

  /** The first i entries have had their tick. */
  ghost predicate Ticked(slots: seq<Slot>, head: int, list: seq<int>, es: seq<Entry>, v: Video,
                         now: seq<Byte>, i: nat) {
    && ListOk(slots, head, list) && InRange(es) && i <= |es| == |list|
    && Entries(slots, list) == TickAll(es[..i]) + es[i..] && now == Poked(v, es[..i])
  }

  lemma TickedHere(slots: seq<Slot>, head: int, list: seq<int>, es: seq<Entry>, v: Video, now: seq<Byte>, i: nat)
    requires Ticked(slots, head, list, es, v, now, i) && i < |list|
    ensures 0 <= list[i] < POOL && slots[list[i]].e == es[i] && slots[list[i]].next == Link(list, i + 1)
  {
    ChainOnce(slots, head, list);
    ChainFrom(slots, head, list, i);
    assert slots[list[i]].e == Entries(slots, list)[i];
  }

  lemma TickedNext(slots: seq<Slot>, slots': seq<Slot>, head: int, list: seq<int>, es: seq<Entry>, v: Video,
                   was: seq<Byte>, now: seq<Byte>, i: nat)
    requires Ticked(slots, head, list, es, v, was, i) && i < |list|
    requires 0 <= list[i] < POOL && slots' == slots[list[i] := Slot(TickEntry(es[i]), slots[list[i]].next)]
    requires slots[list[i]].e == es[i]
    requires var e := es[i];
      now == if Toggles(e) then was[2 * e.location := if IsOn(e) then e.offChar else e.onChar] else was
    ensures Ticked(slots', head, list, es, v, now, i + 1)
  {
    Rewritten(slots, head, list, i, TickEntry(es[i]));
    TickedOne(v, es, i);
  }

  // ----- what each update does to the list

  /** One more entry of the tick. */
  lemma TickedOne(v: Video, es: seq<Entry>, i: nat)
    requires InRange(es) && i < |es|
    ensures (TickAll(es[..i]) + es[i..])[i := TickEntry(es[i])] == TickAll(es[..i + 1]) + es[i + 1..]
    ensures Poked(v, es[..i + 1]) ==
      var w, e := Poked(v, es[..i]), es[i];
      if Toggles(e) then w[2 * e.location := if IsOn(e) then e.offChar else e.onChar] else w
  {
    assert es[..i + 1][..i] == es[..i];
  }

  lemma Pushed(slots: seq<Slot>, head: int, list: seq<int>, p: int, e: Entry)
    requires ListOk(slots, head, list) && 0 <= p < POOL && slots[p].e.location == 0
    requires 0 < e.location < CELLS
    ensures var slots' := slots[p := Slot(e, head)];
      && ListOk(slots', p, [p] + list)
      && Entries(slots', [p] + list) == [e] + Entries(slots, list)
  {
    var slots', l := slots[p := Slot(e, head)], [p] + list;
    assert l[1..] == list && p !in list;
    assert Chain(slots', head, list) by {
      ChainKept(slots, slots', head, list);
    }
    assert forall q :: q in l <==> q == p || q in list;
    PushedEntries(slots, slots', head, list, p, e);
  }

  lemma PushedEntries(slots: seq<Slot>, slots': seq<Slot>, head: int, list: seq<int>, p: int, e: Entry)
    requires Chain(slots, head, list) && 0 <= p < |slots| && p !in list && slots' == slots[p := Slot(e, head)]
    ensures Entries(slots', [p] + list) == [e] + Entries(slots, list)
  {
    var a, b, l := Entries(slots', [p] + list), Entries(slots, list), [p] + list;
    assert a[0] == EntryAt(slots', p);
    forall i | 0 < i < |l|
      ensures a[i] == b[i - 1]
    {
      assert l[i] == list[i - 1] && list[i - 1] in list;
    }
  }

  lemma NoList(slots: seq<Slot>, head: int)
    requires |slots| == POOL && 0 <= head < POOL && slots[head].e.location == 0
    ensures !exists l :: ListOk(slots, head, l)
  {
  }

  /** Changing an entry in place, its location apart. */
  lemma Rewritten(slots: seq<Slot>, head: int, list: seq<int>, i: nat, e: Entry)
    requires ListOk(slots, head, list) && i < |list|
    requires 0 <= list[i] < POOL && e.location == slots[list[i]].e.location
    ensures var slots' := slots[list[i] := Slot(e, slots[list[i]].next)];
      && ListOk(slots', head, list)
      && Entries(slots', list) == Entries(slots, list)[i := e]
  {
    ChainKept(slots, slots[list[i] := Slot(e, slots[list[i]].next)], head, list);
    ChainOnce(slots, head, list);
  }

  /** The slots after the pointer to list[i] was moved past it and the slot freed. */
  function Freed(slots: seq<Slot>, list: seq<int>, i: nat): seq<Slot>
    requires i < |list| && forall k :: 0 <= k < |list| ==> 0 <= list[k] < |slots|
  {
    var linked := if i == 0 then slots
      else slots[list[i - 1] := slots[list[i - 1]].(next := slots[list[i]].next)];
    linked[list[i] := ZERO]
  }

  lemma {:induction false} ChainFreed(slots: seq<Slot>, p: int, list: seq<int>, i: nat)
    requires Chain(slots, p, list) && i < |list|
    requires forall k :: 0 <= k < |list| ==> 0 <= list[k] < |slots|
    ensures Chain(Freed(slots, list, i), if i == 0 then slots[p].next else p, list[..i] + list[i + 1..])
    decreases |list|, 1
  {
    var slots', rest := Freed(slots, list, i), list[1..];
    if i == 0 {
      assert list[..0] + list[1..] == rest;
      ChainKept(slots, slots', slots[p].next, rest);
    } else {
      RestFreed(slots, slots[p].next, rest, list, i);
      FreedFields(slots, p, list, i);
      ChainOn(slots', p, list[..i] + list[i + 1..]);
    }
  }

  lemma ChainOn(slots: seq<Slot>, p: int, list: seq<int>)
    requires list != [] && p == list[0] && 0 <= p < |slots| && p !in list[1..]
    requires 0 < slots[p].e.location < CELLS && Chain(slots, slots[p].next, list[1..])
    ensures Chain(slots, p, list)
  {
  }

  /** The same list from its second slot on. */
  lemma {:induction false} RestFreed(slots: seq<Slot>, q: int, rest: seq<int>, list: seq<int>, i: nat)
    requires list != [] && rest == list[1..] && Chain(slots, list[0], list) && q == slots[list[0]].next
    requires 0 < i < |list| && forall k :: 0 <= k < |list| ==> 0 <= list[k] < |slots|
    ensures Chain(Freed(slots, list, i), if i == 1 then slots[list[1]].next else q, rest[..i - 1] + rest[i..])
    decreases |list|, 0
  {
    var slots' := Freed(slots, list, i);
    if i == 1 {
      assert rest[..0] + rest[1..] == rest[1..];
      ChainKept(slots, slots', slots[list[1]].next, rest[1..]);
    } else {
      assert Freed(slots, rest, i - 1) == slots';
      ChainFreed(slots, q, rest, i - 1);
    }
  }

  /** What the first slot of the list becomes. */
  lemma FreedFields(slots: seq<Slot>, p: int, list: seq<int>, i: nat)
    requires Chain(slots, p, list) && 0 < i < |list|
    requires forall k :: 0 <= k < |list| ==> 0 <= list[k] < |slots|
    ensures var s := Freed(slots, list, i)[p];
      s.e.location == slots[p].e.location && s.next == if i == 1 then slots[list[1]].next else slots[p].next
    ensures var l := list[..i] + list[i + 1..];
      l != [] && l[0] == p && p !in l[1..] && l[1..] == list[1..][..i - 1] + list[1..][i..]
  {
    ChainOnce(slots, p, list);
    var l := list[..i] + list[i + 1..];
    assert forall k :: 1 <= k < |l| ==> l[k] == list[if k < i then k else k + 1];
  }

  lemma FreedLive(slots: seq<Slot>, list: seq<int>, i: nat)
    requires |slots| == POOL && i < |list| && NoRepeats(list)
    requires forall k :: 0 <= k < |list| ==> 0 <= list[k] < POOL
    requires forall p :: 0 <= p < POOL ==> (slots[p].e.location != 0 <==> p in list)
    ensures var slots', l := Freed(slots, list, i), list[..i] + list[i + 1..];
      forall p :: 0 <= p < POOL ==> (slots'[p].e.location != 0 <==> p in l)
  {
    var slots', p, l := Freed(slots, list, i), list[i], list[..i] + list[i + 1..];
    assert forall q :: 0 <= q < POOL && q != p ==> slots'[q].e == slots[q].e;
    assert forall q :: q in list <==> q == p || q in l;
    assert p !in list[..i] && p !in list[i + 1..];
  }

  lemma Unlinked(slots: seq<Slot>, head: int, list: seq<int>, i: nat)
    requires ListOk(slots, head, list) && i < |list|
    ensures forall k :: 0 <= k < |list| ==> 0 <= list[k] < |slots|
    ensures var l := list[..i] + list[i + 1..];
      && ListOk(Freed(slots, list, i), if i == 0 then slots[head].next else head, l)
      && Entries(Freed(slots, list, i), l) == Entries(slots, list)[..i] + Entries(slots, list)[i + 1..]
  {
    ChainOnce(slots, head, list);
    ChainFreed(slots, head, list, i);
    FreedLive(slots, list, i);
    FreedEntries(slots, list, i);
  }

  lemma FreedEntries(slots: seq<Slot>, list: seq<int>, i: nat)
    requires i < |list| && NoRepeats(list)
    requires forall k :: 0 <= k < |list| ==> 0 <= list[k] < |slots|
    ensures Entries(Freed(slots, list, i), list[..i] + list[i + 1..]) ==
            Entries(slots, list)[..i] + Entries(slots, list)[i + 1..]
  {
    var slots', l := Freed(slots, list, i), list[..i] + list[i + 1..];
    forall k | 0 <= k < |l|
      ensures EntryAt(slots', l[k]) == EntryAt(slots, list[if k < i then k else k + 1])
    {
      assert l[k] == list[if k < i then k else k + 1] && l[k] != list[i];
    }
  }
}
