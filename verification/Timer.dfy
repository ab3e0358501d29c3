/** Sleeping threads and the timer interrupt (src/devices/timer.c). */
module Timers {
  import opened Sequences

  type Tid = nat

  /** A sleeping thread and its wakeup_tick. */
  datatype Sleeper = Sleeper(t: Tid, wakeup: int)

  ghost predicate SortedByTick(s: seq<Sleeper>) {
    forall i, j :: 0 <= i < j < |s| ==> s[i].wakeup <= s[j].wakeup
  }

  ghost predicate DistinctThreads(s: seq<Sleeper>) {
    forall i, j :: 0 <= i < j < |s| ==> s[i].t != s[j].t
  }

  // ----- what is promised -----------------------------------------------------------------------------------------

  /** The time, and when each sleeping thread is to wake up. */
  datatype World = World(now: int, due: map<Tid, int>)

  datatype Event = Tick | Sleep(t: Tid, n: int)

  /** A sleep of N ticks ends N ticks later, but not before the next tick. */
  function Wakes(w: World, n: int): int {
    w.now + if n < 1 then 1 else n
  }

  function Woken(w: World): set<Tid> {
    set t | t in w.due && w.due[t] == w.now + 1
  }

  function After(w: World, e: Event): World {
    match e
    case Tick => World(w.now + 1, w.due - Woken(w))
    case Sleep(t, n) => World(w.now, w.due[t := Wakes(w, n)])
  }

  function Run(w: World, events: seq<Event>): World {
    if events == [] then w else After(Run(w, events[..|events| - 1]), events[|events| - 1])
  }

  /** A sleeping thread sleeps on exactly until it is due, whatever the other threads do. */
  lemma {:induction false} SleepsUntilDue(w: World, events: seq<Event>, t: Tid)
    requires t in w.due && w.due[t] > w.now && forall i :: 0 <= i < |events| ==> !(events[i].Sleep? && events[i].t == t)
    ensures var u := Run(w, events); t in u.due <==> u.now < w.due[t]
    ensures var u := Run(w, events); u.now >= w.now && (t in u.due ==> u.due[t] == w.due[t])
  {
    if events != [] {
      SleepsUntilDue(w, events[..|events| - 1], t);
    }
  }

  /** It is woken by one event only: the tick at which it is due. */
  lemma WokenOnce(w: World, events: seq<Event>, i: nat, t: Tid)
    requires t in w.due && w.due[t] > w.now && forall j :: 0 <= j < |events| ==> !(events[j].Sleep? && events[j].t == t)
    requires i < |events| && events[i] == Tick
    ensures t in Woken(Run(w, events[..i])) <==> Run(w, events[..i]).now + 1 == w.due[t]
  {
    SleepsUntilDue(w, events[..i], t);
  }

  /** How many of the events are ticks. */
  function Ticks(events: seq<Event>): nat {
    if events == [] then 0 else Ticks(events[..|events| - 1]) + if events[|events| - 1] == Tick then 1 else 0
  }

  lemma {:induction false} TicksCounted(w: World, events: seq<Event>)
    ensures Run(w, events).now == w.now + Ticks(events)
  {
    if events != [] {
      TicksCounted(w, events[..|events| - 1]);
    }
  }

  /** A thread that goes to sleep for N ticks is asleep until there have been N ticks, or one if N is less, and no
      longer. */
  lemma SleepsForTicks(w: World, t: Tid, n: int, events: seq<Event>)
    requires t !in w.due && forall i :: 0 <= i < |events| ==> !(events[i].Sleep? && events[i].t == t)
    ensures t in Run(After(w, Sleep(t, n)), events).due <==> Ticks(events) < if n < 1 then 1 else n
  {
    hide Run;
    var u := After(w, Sleep(t, n));
    SleepsUntilDue(u, events, t);
    TicksCounted(u, events);
  }

  // ----- the timer -------------------------------------------------------------------------------------------------

  /** The list is sorted and has exactly the threads that are due; one whose wakeup_tick is past is due at
      the next tick. */
  ghost predicate Listed(list: seq<Sleeper>, now: int, due: map<Tid, int>) {
    SortedByTick(list) && DistinctThreads(list) && Timed(list, now, due) && Covered(list, due)
  }

  ghost predicate Timed(list: seq<Sleeper>, now: int, due: map<Tid, int>) {
    forall i :: 0 <= i < |list| ==> list[i].t in due && due[list[i].t] == if list[i].wakeup > now then list[i].wakeup else now + 1
  }

  ghost predicate Covered(list: seq<Sleeper>, due: map<Tid, int>) {
    forall t :: t in due ==> exists i :: 0 <= i < |list| && list[i].t == t
  }

  /** LIST with X before position I. */
  function WithSleeper(list: seq<Sleeper>, x: Sleeper, i: nat): (r: seq<Sleeper>)
    requires i <= |list|
    ensures |r| == |list| + 1 && forall j :: 0 <= j < |r| ==> r[j] == if j < i then list[j] else if j == i then x else list[j - 1]
  {
    list[..i] + [x] + list[i..]
  }

  lemma InsertedSorted(list: seq<Sleeper>, x: Sleeper, i: nat)
    requires SortedByTick(list) && i <= |list|
    requires (forall j :: 0 <= j < i ==> list[j].wakeup <= x.wakeup) && (i < |list| ==> x.wakeup < list[i].wakeup)
    ensures SortedByTick(WithSleeper(list, x, i))
  {
  }

  lemma InsertedDistinct(list: seq<Sleeper>, x: Sleeper, i: nat)
    requires DistinctThreads(list) && i <= |list| && forall j :: 0 <= j < |list| ==> list[j].t != x.t
    ensures DistinctThreads(WithSleeper(list, x, i))
  {
  }

  lemma InsertedAll(list: seq<Sleeper>, x: Sleeper, i: nat, t: Tid)
    requires i <= |list| && (t == x.t || exists j :: 0 <= j < |list| && list[j].t == t)
    ensures exists j :: 0 <= j < |WithSleeper(list, x, i)| && WithSleeper(list, x, i)[j].t == t
  {
    var r := WithSleeper(list, x, i);
    if t == x.t {
      assert r[i].t == t;
    } else {
      var j :| 0 <= j < |list| && list[j].t == t;
      assert r[if j < i then j else j + 1].t == t;
    }
  }

  lemma InsertedTimed(list: seq<Sleeper>, now: int, due: map<Tid, int>, x: Sleeper, i: nat)
    requires Timed(list, now, due) && x.t !in due && i <= |list|
    ensures Timed(WithSleeper(list, x, i), now, due[x.t := if x.wakeup > now then x.wakeup else now + 1])
  {
  }

  lemma InsertedCovered(list: seq<Sleeper>, due: map<Tid, int>, x: Sleeper, i: nat, tick: int)
    requires Covered(list, due) && i <= |list|
    ensures Covered(WithSleeper(list, x, i), due[x.t := tick])
  {
    var due' := due[x.t := tick];
    forall t | t in due'
      ensures exists j :: 0 <= j < |WithSleeper(list, x, i)| && WithSleeper(list, x, i)[j].t == t
    {
      InsertedAll(list, x, i, t);
    }
  }

  lemma Inserted(list: seq<Sleeper>, now: int, due: map<Tid, int>, x: Sleeper, i: nat)
    requires Listed(list, now, due) && x.t !in due && i <= |list|
    requires (forall j :: 0 <= j < i ==> list[j].wakeup <= x.wakeup) && (i < |list| ==> x.wakeup < list[i].wakeup)
    ensures Listed(WithSleeper(list, x, i), now, due[x.t := if x.wakeup > now then x.wakeup else now + 1])
  {
    hide SortedByTick, DistinctThreads, Covered;
    InsertedSorted(list, x, i);
    InsertedDistinct(list, x, i);
    InsertedTimed(list, now, due, x, i);
    InsertedCovered(list, due, x, i, if x.wakeup > now then x.wakeup else now + 1);
  }

  /** What is left of the list after the N sleepers that were due. */
  lemma DuePart(list: seq<Sleeper>, now: int, due: map<Tid, int>, n: nat)
    requires Listed(list, now, due) && n <= |list|
    requires (forall i :: 0 <= i < n ==> list[i].wakeup <= now + 1) && (n < |list| ==> list[n].wakeup > now + 1)
    ensures forall i :: 0 <= i < |list| ==> (list[i].t in Woken(World(now, due)) <==> i < n)
    ensures Listed(list[n..], now + 1, due - Woken(World(now, due)))
  {
    assert forall i :: n <= i < |list| ==> list[i].wakeup > now + 1;
    var left, rest := due - Woken(World(now, due)), list[n..];
    assert forall i :: 0 <= i < |rest| ==> rest[i] == list[i + n];
    forall t | t in left
      ensures exists i :: 0 <= i < |rest| && rest[i].t == t
    {
      var i :| 0 <= i < |list| && list[i].t == t;
      assert rest[i - n].t == t;
    }
  }

  class Timer {
    var ticks: int
    var sleepList: seq<Sleeper>
    ghost var due: map<Tid, int>

    ghost function W(): World
      reads this
    {
      World(ticks, due)
    }

    ghost predicate Valid()
      reads this
    {
      Listed(sleepList, ticks, due)
    }

    constructor ()
      ensures Valid() && W() == World(0, map[])
    {
      ticks, sleepList, due := 0, [], map[];
    }

    /** timer_sleep by thread T, which then blocks. */
    method TimerSleep(t: Tid, n: int)
      requires Valid() && t !in due
      modifies this
      ensures Valid() && W() == After(old(W()), Sleep(t, n))
    {
      hide Listed;
      var wakeup := ticks + n;
      var i := 0;
      while i < |sleepList| && !(wakeup < sleepList[i].wakeup)
        invariant i <= |sleepList| && forall j :: 0 <= j < i ==> sleepList[j].wakeup <= wakeup
      {
        i := i + 1;
      }
      Inserted(sleepList, ticks, due, Sleeper(t, wakeup), i);
      sleepList := WithSleeper(sleepList, Sleeper(t, wakeup), i);
      due := due[t := if wakeup > ticks then wakeup else ticks + 1];
    }

    /** timer_interrupt: every thread that is due is unblocked, once, and no other. */
    method TimerInterrupt() returns (unblocked: seq<Tid>)
      requires Valid()
      modifies this
      ensures Valid() && W() == After(old(W()), Tick)
      ensures forall t :: t in unblocked <==> t in Woken(old(W()))
      ensures Distinct(unblocked)
    {
      hide Listed, Woken;
      ghost var all, n := sleepList, 0;
      ticks := ticks + 1;
      unblocked := [];
      while sleepList != []
        invariant n <= |all| && sleepList == all[n..] && |unblocked| == n && ticks == old(ticks) + 1 && due == old(due)
        invariant forall i :: 0 <= i < n ==> unblocked[i] == all[i].t && all[i].wakeup <= ticks
        decreases |sleepList|
      {
        var t := sleepList[0];
        if t.wakeup > ticks {
          break;
        }
        sleepList := sleepList[1..];
        unblocked := unblocked + [t.t];
        n := n + 1;
      }
      DuePart(all, old(ticks), due, n);
      Everyone(all, old(ticks), due, n, unblocked);
      due := due - Woken(old(W()));
    }
  }

  lemma Everyone(list: seq<Sleeper>, now: int, due: map<Tid, int>, n: nat, unblocked: seq<Tid>)
    requires Listed(list, now, due) && n == |unblocked| <= |list| && forall i :: 0 <= i < n ==> unblocked[i] == list[i].t
    requires forall i :: 0 <= i < |list| ==> (list[i].t in Woken(World(now, due)) <==> i < n)
    ensures forall t :: t in unblocked <==> t in Woken(World(now, due))
    ensures Distinct(unblocked)
  {
    forall t | t in Woken(World(now, due))
      ensures t in unblocked
    {
      var i :| 0 <= i < |list| && list[i].t == t;
      assert unblocked[i] == t;
    }
  }
}
