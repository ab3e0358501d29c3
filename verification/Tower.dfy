/** A chain of lock holders longer than the donation depth (src/threads/thread.c), reached from the start of
    the machine. */
module Towers {
  import opened Options
  import opened Scheduling
  import opened SchedulerRuns

  /** Thread T of a tower of holders M to N, each waiting for the lock of the next, the last one asleep;
      thread N + 1 runs with a higher priority and thread N + 2 is idle. */
  function TowerThread(n: nat, m: nat, t: Tid): Thread {
    if t < n then Thread(Blocked, 0, 0, if m < t then [t - 1] else [], Some(t + 1), Acquiring(t + 1), 1 + 2 * (n - t))
    else if t == n then Thread(Blocked, 0, 0, if m < t then [t - 1] else [], None, Free, 1)
    else if t == n + 1 && m <= n + 1 then Thread(Running, 1, 1, [], None, Free, 2 * (n + 1 - m))
    else Thread(Ready, 0, 0, [], None, Free, 0)
  }

  function TowerSema(m: nat, l: nat): Sema {
    Sema(if l < m then 1 else 0, if m < l then [l - 1] else [])
  }

  function Owner(l: nat): Tid {
    l
  }

  /** The tower once holders M to N are in place. */
  function Tower(n: nat, m: nat): State
    requires m <= n + 1
  {
    var semas := map l: nat | 0 <= l <= n :: TowerSema(m, l);
    State(map t: nat | m <= t <= n + 2 :: TowerThread(n, m, t), semas, semas.Keys, map l: nat | m <= l <= n :: Owner(l), [], n + 1, n + 2,
          1 + 2 * (n + 1 - m), map[])
  }

  lemma TowerStarts(n: nat)
    ensures Initial(Tower(n, n + 1))
  {
    var st := Tower(n, n + 1);
    assert st.threads.Keys == {st.cur, st.idle};
    assert st.holder == map[];
  }

  // ----- single steps with nobody else ready --------------------------------------------------------------

  lemma CreateOne(st: State, t: Tid)
    requires Closed(st) && t !in st.threads && st.ready == [] && st.threads[st.cur].phase == Free && st.cur != st.idle
    ensures Enabled(st, CreateStep(t, 0))
    ensures Next(st, CreateStep(t, 0)) ==
      st.(threads := st.threads[t := Thread(Ready, 0, 0, [], None, Free, st.clock)][st.cur := st.threads[st.cur].(phase := Starting(t))],
          ready := [t], clock := st.clock + 1)
  {
    hide Closed;
    KnownReady(st);
  }

  lemma StartOne(st: State)
    requires Closed(st) && st.threads[st.cur].phase.Starting? && st.threads[st.cur].phase.t in st.threads
    requires st.threads[st.threads[st.cur].phase.t].priority <= st.threads[st.cur].priority
    ensures Enabled(st, StartStep(false))
    ensures Next(st, StartStep(false)) == st.(threads := st.threads[st.cur := st.threads[st.cur].(phase := Free)])
  {
    hide Closed, Yield;
    KnownReady(st);
  }

  lemma SleepOne(st: State, next: Tid)
    requires Closed(st) && st.threads[st.cur].phase == Free && next in st.threads && next != st.cur
    requires if next == st.idle then st.ready == [] else st.ready == [next]
    ensures Enabled(st, SleepStep)
    ensures Next(st, SleepStep) ==
      st.(threads := st.threads[st.cur := st.threads[st.cur].(status := Blocked)][next := st.threads[next].(status := Running)],
          cur := next, ready := [])
  {
    hide Closed;
    KnownReady(st);
  }

  lemma AcquireFree(st: State, l: nat)
    requires Inv(st) && MayAcquire(st, l) && l in st.semas && l !in st.holder && st.semas[l].value == 1
    ensures Enabled(st, AcquireStep(l))
    ensures Next(st, AcquireStep(l)) == st.(semas := st.semas[l := st.semas[l].(value := 0)], holder := st.holder[l := st.cur])
  {
    hide Base, Closed, Propagate, Dispatch;
    InvClosed(st);
    KnownReady(st);
    CurrentFree(st);
    var w := Next(st, AcquireStep(l));
    assert w.threads == st.threads;
  }

  lemma RegisterOne(st: State, l: nat)
    requires Closed(st) && MayAcquire(st, l) && l in st.holder && st.holder[l] in st.threads && st.holder[l] != st.cur
    requires st.threads[st.holder[l]].donors == []
    ensures Register(st, l) ==
      st.(threads := st.threads[st.cur := st.threads[st.cur].(phase := Acquiring(l), blocking := Some(l))]
                               [st.holder[l] := st.threads[st.holder[l]].(donors := [st.cur])])
  {
    var ts := st.threads[st.cur := st.threads[st.cur].(phase := Acquiring(l), blocking := Some(l))];
    InsertedAlone(st.cur, ts);
  }

  lemma InsertedAlone(t: Tid, ts: map<Tid, Thread>)
    requires t in ts
    ensures InsertOrdered([], t, ts) == [t]
  {
    assert [t] + [] == [t];
  }

  lemma BlockOne(st: State, l: nat)
    requires Closed(st) && l in st.semas && st.semas[l] == Sema(0, []) && st.ready == [] && st.cur != st.idle
    ensures Attempt(st, l) ==
      st.(semas := st.semas[l := Sema(0, [st.cur])], cur := st.idle,
          threads := st.threads[st.cur := st.threads[st.cur].(status := Blocked)][st.idle := st.threads[st.idle].(status := Running)])
  {
    InsertedAlone(st.cur, st.threads);
  }

  /** The running thread waits for lock L, which H holds, and idle runs. */
  function WaitsFor(st: State, l: nat, h: Tid): State
    requires st.cur in st.threads && h in st.threads && st.idle in st.threads
  {
    st.(semas := st.semas[l := Sema(0, [st.cur])], cur := st.idle,
        threads := st.threads[st.cur := st.threads[st.cur].(phase := Acquiring(l), blocking := Some(l), status := Blocked)]
                             [h := st.threads[h].(donors := [st.cur])]
                             [st.idle := st.threads[st.idle].(status := Running)])
  }

  lemma AcquireHeld(st: State, l: nat, h: Tid)
    requires Inv(st) && MayAcquire(st, l) && l in st.semas && l in st.holder && st.semas[l] == Sema(0, []) && st.ready == []
    requires st.holder[l] == h && h in st.threads && h != st.cur && h != st.idle && st.threads[h].donors == []
    requires st.idle in st.threads && st.threads[h].priority >= st.threads[st.cur].priority
    ensures Goes(st, AcquireStep(l), WaitsFor(st, l, h))
  {
    hide Base, Closed, Register, Attempt;
    InvClosed(st);
    KnownReady(st);
    RegisterOne(st, l);
    RegisterClosed(st, l);
    var asked := Register(st, l);
    assert Propagate(asked, Some(l), st.threads[st.cur].priority, DONATION_DEPTH) == asked;
    BlockOne(asked, l);
  }

  lemma WakeOne(st: State, t: Tid)
    requires Closed(st) && t in st.threads && t != st.idle && st.ready == []
    requires st.threads[t].status == Blocked && st.threads[t].phase == Free && st.threads[st.cur].phase == Free
    ensures Enabled(st, WakeStep(t))
    ensures Next(st, WakeStep(t)) ==
      st.(threads := st.threads[t := st.threads[t].(status := Ready, stamp := st.clock)], ready := [t], clock := st.clock + 1)
  {
    hide Closed;
    KnownReady(st);
  }

  lemma IdleYields(st: State, next: Tid)
    requires Closed(st) && st.cur == st.idle && next in st.threads && next != st.idle && st.ready == [next] && st.threads[st.cur].phase == Free
    ensures Enabled(st, Preempt)
    ensures Next(st, Preempt) ==
      st.(threads := st.threads[st.idle := st.threads[st.idle].(status := Ready)][next := st.threads[next].(status := Running)],
          cur := next, ready := [])
  {
    hide Closed;
    KnownReady(st);
  }

  /** The step leads from ST to W. */
  ghost predicate Goes(st: State, step: Step, w: State) {
    Enabled(st, step) && Next(st, step) == w
  }

  lemma GoesOn(st: State, steps: seq<Step>, u: State, step: Step, w: State)
    requires CanRun(st, steps) && Run(st, steps) == u && Inv(u) && Goes(u, step, w)
    ensures CanRun(st, steps + [step]) && Run(st, steps + [step]) == w && Inv(w)
  {
    hide Inv, Enabled, Next;
    StepInv(u, step);
    assert CanRun(w, []);
    assert [step][1..] == [];
    RunMore(st, steps, [step]);
  }

  // ----- one more holder -------------------------------------------------------------------------------

  /** The main thread creates thread T and sleeps; T takes its lock and sleeps or waits for the next lock; a
      timer interrupt wakes the main thread. */
  function Round(n: nat, t: nat): seq<Step> {
    [CreateStep(t, 0), StartStep(false), SleepStep, AcquireStep(t), if t == n then SleepStep else AcquireStep(t + 1), WakeStep(n + 1), Preempt]
  }

  function NewThread(n: nat, t: nat): Thread
    requires t <= n
  {
    Thread(Ready, 0, 0, [], None, Free, 1 + 2 * (n - t))
  }

  /** T is ready; PHASE is that of the main thread. */
  function Made(n: nat, t: nat, phase: Phase): State
    requires t <= n
  {
    var st := Tower(n, t + 1);
    st.(threads := st.threads[t := NewThread(n, t)][n + 1 := st.threads[n + 1].(phase := phase)], ready := [t], clock := 2 + 2 * (n - t))
  }

  /** The main thread sleeps, and T runs. */
  function Fresh(n: nat, t: nat): State
    requires t <= n
  {
    var st := Tower(n, t + 1);
    st.(threads := st.threads[t := NewThread(n, t).(status := Running)][n + 1 := st.threads[n + 1].(status := Blocked)],
        cur := t, clock := 2 + 2 * (n - t))
  }

  /** T has its lock. */
  function Holding(n: nat, t: nat): State
    requires t <= n
  {
    var st := Fresh(n, t);
    st.(semas := st.semas[t := Sema(0, [])], holder := st.holder[t := t])
  }

  /** T waits, and idle runs. */
  function Waiting(n: nat, t: nat): State
    requires t <= n
  {
    var st := Tower(n, t);
    st.(threads := st.threads[n + 1 := st.threads[n + 1].(status := Blocked, stamp := 2 * (n - t))][n + 2 := st.threads[n + 2].(status := Running)],
        cur := n + 2, clock := 2 + 2 * (n - t))
  }

  /** The main thread is ready again. */
  function Woken(n: nat, t: nat): State
    requires t <= n
  {
    var st := Tower(n, t);
    st.(threads := st.threads[n + 1 := st.threads[n + 1].(status := Ready)][n + 2 := st.threads[n + 2].(status := Running)],
        cur := n + 2, ready := [n + 1])
  }

  lemma RoundCreate(n: nat, t: nat)
    requires t <= n && Closed(Tower(n, t + 1))
    ensures Goes(Tower(n, t + 1), CreateStep(t, 0), Made(n, t, Starting(t)))
  {
    hide Closed, Enabled, Next;
    CreateOne(Tower(n, t + 1), t);
  }

  lemma RoundStart(n: nat, t: nat)
    requires t <= n && Closed(Made(n, t, Starting(t)))
    ensures Goes(Made(n, t, Starting(t)), StartStep(false), Made(n, t, Free))
  {
    hide Closed, Enabled, Next;
    StartOne(Made(n, t, Starting(t)));
  }

  lemma RoundSleep(n: nat, t: nat)
    requires t <= n && Closed(Made(n, t, Free))
    ensures Goes(Made(n, t, Free), SleepStep, Fresh(n, t))
  {
    hide Closed, Enabled, Next;
    SleepOne(Made(n, t, Free), t);
  }

  lemma RoundHold(n: nat, t: nat)
    requires t <= n && Inv(Fresh(n, t))
    ensures Goes(Fresh(n, t), AcquireStep(t), Holding(n, t))
  {
    hide Base, Enabled, Next;
    AcquireFree(Fresh(n, t), t);
  }

  lemma RoundLast(n: nat)
    requires Inv(Holding(n, n))
    ensures Goes(Holding(n, n), SleepStep, Waiting(n, n))
  {
    hide Base, Enabled, Next;
    var st := Holding(n, n);
    InvClosed(st);
    SleepOne(st, n + 2);
    SettledRest(n, n);
    LastThreads(n);
  }

  lemma RoundWait(n: nat, t: nat)
    requires t < n && Inv(Holding(n, t))
    ensures Goes(Holding(n, t), AcquireStep(t + 1), Waiting(n, t))
  {
    hide Base, Enabled, Next, Waiting;
    MayWait(n, t);
    AcquireHeld(Holding(n, t), t + 1, t + 1);
    SettledRest(n, t);
    SettledThreads(n, t);
  }

  /** The lock of the next thread is taken, and nobody waits for it yet. */
  lemma MayWait(n: nat, t: nat)
    requires t < n
    ensures var st := Holding(n, t);
      && st.cur == t && st.idle == n + 2 && st.ready == [] && t in st.threads && t + 1 in st.threads && n + 2 in st.threads
      && MayAcquire(st, t + 1) && t + 1 in st.semas && t + 1 in st.holder && st.semas[t + 1] == Sema(0, [])
      && st.holder[t + 1] == t + 1 && st.threads[t + 1].donors == [] && st.threads[t + 1].priority == st.threads[t].priority == 0
  {
  }

  /** Whichever way T stops running, the tower has one more holder. */
  lemma SettledRest(n: nat, t: nat)
    requires t <= n
    ensures var st := Holding(n, t);
      && Waiting(n, t).semas == (if t == n then st.semas else st.semas[t + 1 := Sema(0, [t])])
      && Waiting(n, t) == st.(threads := Waiting(n, t).threads, semas := Waiting(n, t).semas, cur := n + 2)
  {
    assert Waiting(n, t).holder == Holding(n, t).holder;
  }

  lemma LastThreads(n: nat)
    ensures var st := Holding(n, n);
      Waiting(n, n).threads == st.threads[n := st.threads[n].(status := Blocked)][n + 2 := st.threads[n + 2].(status := Running)]
  {
  }

  lemma SettledThreads(n: nat, t: nat)
    requires t < n
    ensures t in Holding(n, t).threads && t + 1 in Holding(n, t).threads && n + 2 in Holding(n, t).threads
    ensures var ts := Holding(n, t).threads;
      Waiting(n, t).threads ==
        ts[t := ts[t].(phase := Acquiring(t + 1), blocking := Some(t + 1), status := Blocked)]
          [t + 1 := ts[t + 1].(donors := [t])][n + 2 := ts[n + 2].(status := Running)]
  {
    hide Holding, Waiting;
    SettledKeys(n, t);
    var ts, ws := Holding(n, t).threads, Waiting(n, t).threads;
    forall u | t <= u <= n + 2
      ensures ws[u] == Parked(ts, n, t, u)
    {
      SettledThread(n, t, u);
    }
    assert forall u :: u in ws ==> t <= u <= n + 2;
  }

  /** What thread U is once T waits. */
  function Parked(ts: map<Tid, Thread>, n: nat, t: nat, u: nat): Thread
    requires u in ts
  {
    if u == t then ts[u].(phase := Acquiring(t + 1), blocking := Some(t + 1), status := Blocked)
    else if u == t + 1 then ts[u].(donors := [t])
    else if u == n + 2 then ts[u].(status := Running)
    else ts[u]
  }

  lemma SettledKeys(n: nat, t: nat)
    requires t < n
    ensures forall u: nat :: (u in Holding(n, t).threads <==> t <= u <= n + 2) && (u in Waiting(n, t).threads <==> t <= u <= n + 2)
  {
  }

  lemma SettledThread(n: nat, t: nat, u: nat)
    requires t < n && t <= u <= n + 2 && u in Holding(n, t).threads && u in Waiting(n, t).threads
    ensures Waiting(n, t).threads[u] == Parked(Holding(n, t).threads, n, t, u)
  {
  }

  lemma RoundWake(n: nat, t: nat)
    requires t <= n && Closed(Waiting(n, t))
    ensures Goes(Waiting(n, t), WakeStep(n + 1), Woken(n, t))
  {
    hide Closed, Enabled, Next;
    WakeOne(Waiting(n, t), n + 1);
  }

  lemma RoundBack(n: nat, t: nat)
    requires t <= n && Closed(Woken(n, t))
    ensures Goes(Woken(n, t), Preempt, Tower(n, t))
  {
    hide Closed, Enabled, Next;
    IdleYields(Woken(n, t), n + 1);
  }

  lemma RoundGoes(n: nat, t: nat)
    requires t <= n && Inv(Tower(n, t + 1))
    ensures CanRun(Tower(n, t + 1), Round(n, t)) && Run(Tower(n, t + 1), Round(n, t)) == Tower(n, t) && Inv(Tower(n, t))
  {
    hide Inv, CanRun, Run, Goes, Tower, Made, Fresh, Holding, Waiting, Woken;
    var st := Tower(n, t + 1);
    Nothing(st);
    var fifth := if t == n then SleepStep else AcquireStep(t + 1);
    InvClosed(st);
    RoundCreate(n, t);
    GoesOn(st, [], st, CreateStep(t, 0), Made(n, t, Starting(t)));
    var steps := [] + [CreateStep(t, 0)];
    InvClosed(Made(n, t, Starting(t)));
    RoundStart(n, t);
    GoesOn(st, steps, Made(n, t, Starting(t)), StartStep(false), Made(n, t, Free));
    steps := steps + [StartStep(false)];
    InvClosed(Made(n, t, Free));
    RoundSleep(n, t);
    GoesOn(st, steps, Made(n, t, Free), SleepStep, Fresh(n, t));
    steps := steps + [SleepStep];
    RoundHold(n, t);
    GoesOn(st, steps, Fresh(n, t), AcquireStep(t), Holding(n, t));
    steps := steps + [AcquireStep(t)];
    if t == n {
      RoundLast(n);
    } else {
      RoundWait(n, t);
    }
    GoesOn(st, steps, Holding(n, t), fifth, Waiting(n, t));
    steps := steps + [fifth];
    InvClosed(Waiting(n, t));
    RoundWake(n, t);
    GoesOn(st, steps, Waiting(n, t), WakeStep(n + 1), Woken(n, t));
    steps := steps + [WakeStep(n + 1)];
    InvClosed(Woken(n, t));
    RoundBack(n, t);
    GoesOn(st, steps, Woken(n, t), Preempt, Tower(n, t));
    assert steps + [Preempt] == Round(n, t);
  }

  lemma Nothing(st: State)
    ensures CanRun(st, []) && Run(st, []) == st
  {
  }

  /** The rounds that put holders N down to M in place. */
  function Rounds(n: nat, m: nat): seq<Step>
    requires m <= n + 1
    decreases n + 1 - m
  {
    if m == n + 1 then [] else Rounds(n, m + 1) + Round(n, m)
  }

  /** The tower is reached from the start of the machine. */
  lemma {:induction false} TowerReached(n: nat, m: nat)
    requires m <= n + 1
    ensures Initial(Tower(n, n + 1)) && CanRun(Tower(n, n + 1), Rounds(n, m)) && Run(Tower(n, n + 1), Rounds(n, m)) == Tower(n, m)
    ensures Inv(Tower(n, m))
    decreases n + 1 - m
  {
    hide Inv, CanRun, Run, Tower, Round, Initial;
    TowerStarts(n);
    if m == n + 1 {
      Nothing(Tower(n, m));
      InitialInv(Tower(n, m));
    } else {
      TowerReached(n, m + 1);
      RoundGoes(n, m);
      RunMore(Tower(n, n + 1), Rounds(n, m + 1), Round(n, m));
    }
  }

  // ----- what an acquire at the bottom achieves -----------------------------------------------------------

  lemma TowerPriorities(n: nat)
    requires Closed(Tower(n, 0))
    ensures PriorityOk(Tower(n, 0), None) && MayAcquire(Tower(n, 0), 0) && Tower(n, 0).threads[n + 1].priority == 1
    ensures Tower(n, 0).cur == n + 1 && 0 in Tower(n, 0).holder
  {
    hide Closed;
    var st := Tower(n, 0);
    forall t, d | t in st.threads && d in st.threads[t].donors
      ensures d in st.threads && st.threads[t].priority >= st.threads[d].priority
    {
      assert st.threads[t] == TowerThread(n, 0, t) && d == t - 1;
    }
  }

  lemma {:induction false} TowerChain(n: nat, k: nat, seen: set<Tid>)
    requires Closed(Tower(n, 0)) && k <= n && forall t :: t in seen ==> t < k
    ensures var chain := Chain(Tower(n, 0), Some(k), 1, seen);
      |chain| == n + 1 - k && forall i :: 0 <= i < |chain| ==> chain[i] == k + i
    decreases n - k
  {
    hide Closed;
    if k < n {
      TowerChain(n, k + 1, seen + {k});
    }
  }

  /** Whether a walk of eight climbs the whole tower. */
  lemma TowerDepth(n: nat, chain: seq<Tid>)
    requires |chain| == n + 1 && forall i :: 0 <= i < |chain| ==> chain[i] == i
    ensures forall t :: t in chain ==> t in Tower(n, 0).threads
    ensures Suffices(Tower(n, 0), n + 1, chain, DONATION_DEPTH) <==> n < DONATION_DEPTH
  {
  }

  /** After acquiring L nobody has less priority than a thread on its donor list. */
  ghost predicate DonationReaches(st: State, l: nat)
    requires Inv(st) && MayAcquire(st, l)
  {
    Closed(Acquire(st, l)) && PriorityOk(Acquire(st, l), None)
  }

  /** Donation up a tower, which is reached from the start of the machine, works exactly as far as the depth
      limit: from nine holders on, the top one keeps less priority than a thread on its donor list. */
  lemma TowerDonation(n: nat)
    ensures Initial(Tower(n, n + 1)) && CanRun(Tower(n, n + 1), Rounds(n, 0)) && Run(Tower(n, n + 1), Rounds(n, 0)) == Tower(n, 0)
    ensures Inv(Tower(n, 0)) && MayAcquire(Tower(n, 0), 0)
    ensures DonationReaches(Tower(n, 0), 0) <==> n < DONATION_DEPTH
  {
    hide Inv, PriorityOk, Closed, Acquire, Chain, CanRun, Run, Initial, Tower, Suffices;
    TowerReached(n, 0);
    InvClosed(Tower(n, 0));
    TowerPriorities(n);
    AcquireExact(Tower(n, 0), 0);
    TowerChain(n, 0, {});
    TowerDepth(n, Chain(Tower(n, 0), Some(0), 1, {}));
  }
}
