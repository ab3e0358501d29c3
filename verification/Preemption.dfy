/** Who runs: the thread on the processor has the highest priority, and what single operations do for that
    (src/threads/thread.c, src/threads/synch.c). */
module Preemption {
  import opened Options
  import opened Scheduling
  import opened SchedulerRuns

  /** No ready thread has more priority than the running one. */
  ghost predicate Topmost(st: State) {
    st.cur in st.threads && forall t :: t in st.ready ==> t in st.threads && st.threads[t].priority <= st.threads[st.cur].priority
  }

  lemma SameTop(st: State, w: State)
    requires Topmost(st) && w.cur == st.cur && w.ready == st.ready && w.threads.Keys == st.threads.Keys
    requires forall t :: t in st.threads ==> w.threads[t].priority == st.threads[t].priority
    ensures Topmost(w)
  {
  }

  lemma YieldTop(st: State)
    requires Inv(st)
    ensures Closed(st) && Topmost(Yield(st))
    ensures var w := Yield(st); forall t :: t in st.ready ==> t in st.threads && st.threads[t].priority <= w.threads[w.cur].priority
  {
    hide Yield, Base;
    YieldRunsHighest(st);
  }

  lemma DispatchTop(st: State)
    requires Base(st, None) && forall t :: t in st.threads ==> st.threads[t].status != Running
    ensures Topmost(Dispatch(st))
  {
    hide Dispatch, WaitOk, LockOk, DonorOk, ReadyOk;
    DispatchHighest(st);
  }

  // ----- sema_up ------------------------------------------------------------------------------------------------

  /** The state in which sema_up has made its waiter ready. */
  lemma WokenReady(st: State, s: nat, interrupt: bool)
    requires Inv(st) && MayPost(st, s, interrupt) && st.semas[s].waiters != []
    ensures var m := FirstMax(st.semas[s].waiters, st.threads); var posted := Post(st, s);
      && Closed(posted) && Known(Unlisted(posted, s).ready, Unlisted(posted, s).threads) && m in Unlisted(posted, s).threads
      && var woken := Enqueue(Unlisted(posted, s), m);
      && Inv(woken) && woken.cur == st.cur && m != st.cur && Kept(st, woken)
      && (forall t :: t in woken.ready <==> t in st.ready || t == m)
      && Up(st, s, interrupt) == if st.threads[m].priority > st.threads[st.cur].priority && !interrupt then Yield(woken) else woken
  {
    hide FirstMax, Without, Yield, Base, Closed, Enqueue;
    InvClosed(st);
    HolderKeys(st);
    PostInv(st, s);
    var posted := Post(st, s);
    PostKept(st, s);
    MaxPosted(st, s);
    WakenInv(posted, s);
    UnlistedKept(posted, s);
    var off, m := Unlisted(posted, s), FirstMax(posted.semas[s].waiters, posted.threads);
    KnownReady(off);
    EnqueueKept(off, m);
    EnqueueClosed(off, m);
    EnqueueReadies(off, m);
    WaitersKnown(st, s);
    Scheduling.WaiterBlocked(st, s, m);
    KeptTrans(st, posted, off);
    KeptTrans(st, off, Enqueue(off, m));
  }

  lemma EnqueueReadies(st: State, t: Tid)
    requires t in st.threads && Known(st.ready, st.threads)
    ensures forall u :: u in Enqueue(st, t).ready <==> u in st.ready || u == t
  {
  }

  lemma {:induction false} MaxFrame(q: seq<Tid>, ts: map<Tid, Thread>, ts': map<Tid, Thread>)
    requires q != [] && Known(q, ts) && Known(q, ts') && forall t :: t in q ==> ts'[t].priority == ts[t].priority
    ensures FirstMax(q, ts') == FirstMax(q, ts)
  {
    if |q| > 1 {
      MaxFrame(q[..|q| - 1], ts, ts');
    }
  }

  lemma MaxPosted(st: State, s: nat)
    requires Closed(st) && s in st.semas && st.semas[s].waiters != []
    ensures Known(st.semas[s].waiters, st.threads) && Known(st.semas[s].waiters, Post(st, s).threads)
    ensures FirstMax(st.semas[s].waiters, Post(st, s).threads) == FirstMax(st.semas[s].waiters, st.threads)
  {
    MaxFrame(st.semas[s].waiters, st.threads, Post(st, s).threads);
  }

  /** After sema_up outside an interrupt the highest thread runs if and only if it did before, or a waiter had more
      priority than the running thread. */
  lemma UpTopIff(st: State, s: nat)
    requires Inv(st) && MayPost(st, s, false)
    ensures Closed(st)
    ensures Topmost(Up(st, s, false)) <==>
      Topmost(st) || exists t :: t in st.semas[s].waiters && t in st.threads && st.threads[t].priority > st.threads[st.cur].priority
  {
    hide FirstMax, Yield, Base, Closed, Enqueue, Unlisted;
    InvClosed(st);
    WaitersKnown(st, s);
    KnownReady(st);
    if st.semas[s].waiters != [] {
      WokenReady(st, s, false);
      var m := FirstMax(st.semas[s].waiters, st.threads);
      var woken := Enqueue(Unlisted(Post(st, s), s), m);
      YieldTop(woken);
      if st.threads[m].priority <= st.threads[st.cur].priority {
        assert Topmost(woken) <==> Topmost(st);
      }
    }
  }

  /** It gives up the processor if and only if there is a waiter with more priority, and it is no interrupt; then
      a thread with at least that waiter's priority runs. */
  lemma UpPreempts(st: State, s: nat, interrupt: bool)
    requires Inv(st) && MayPost(st, s, interrupt)
    ensures Closed(st) && Up(st, s, interrupt).cur in Up(st, s, interrupt).threads
    ensures var w := Up(st, s, interrupt);
      w.cur == st.cur <==> interrupt || forall t :: t in st.semas[s].waiters ==> t in st.threads && st.threads[t].priority <= st.threads[st.cur].priority
    ensures var w := Up(st, s, interrupt); !interrupt ==>
      (w.cur == st.cur || Topmost(w)) &&
      forall t :: t in st.semas[s].waiters ==> t in st.threads && st.threads[t].priority <= w.threads[w.cur].priority
  {
    hide FirstMax, Yield, Base, Enqueue, Unlisted, Closed;
    InvClosed(st);
    WaitersKnown(st, s);
    if st.semas[s].waiters != [] {
      WokenReady(st, s, interrupt);
      var m := FirstMax(st.semas[s].waiters, st.threads);
      var woken := Enqueue(Unlisted(Post(st, s), s), m);
      YieldTop(woken);
      YieldKept(woken);
      assert st.threads[m].priority == woken.threads[m].priority;
    }
  }

  lemma UpOutcome(st: State, s: nat, interrupt: bool)
    requires Inv(st) && MayPost(st, s, interrupt)
    ensures Closed(st) && (Topmost(st) && !interrupt ==> Topmost(Up(st, s, interrupt)))
    ensures var w := Up(st, s, interrupt);
      w.cur == st.cur <==> interrupt || forall t :: t in st.semas[s].waiters ==> t in st.threads && st.threads[t].priority <= st.threads[st.cur].priority
  {
    hide Up, Inv, Topmost;
    UpPreempts(st, s, interrupt);
    if !interrupt {
      UpTopIff(st, s);
    }
  }

  // ----- thread_set_priority -------------------------------------------------------------------------------------

  /** thread_set_priority gives the caller the base priority it asks for, and as priority exactly the highest of
      that and its donors'; it changes nobody else's; and then the highest thread runs. */
  lemma SetPriorityOutcome(st: State, base: int)
    requires Inv(st) && st.threads[st.cur].phase == Free && st.cur != st.idle
    ensures Closed(st) && Inv(SetPriority(st, base)) && SetPriority(st, base).threads.Keys == st.threads.Keys
    ensures var w := SetPriority(st, base); var me := w.threads[st.cur]; var donors := st.threads[st.cur].donors;
      && me.base == base && me.donors == donors && Known(donors, st.threads)
      && me.priority >= base && (forall d :: d in donors ==> me.priority >= st.threads[d].priority)
      && (me.priority == base || exists d :: d in donors && me.priority == st.threads[d].priority)
      && (forall t :: t in st.threads && t != st.cur ==> w.threads[t].priority == st.threads[t].priority && w.threads[t].base == st.threads[t].base)
      && Topmost(w)
  {
    hide Base, Closed, SetBase, Update, PassOn, Compare, YieldOwn;
    InvClosed(st);
    SetBaseInv(st, base);
    var a := SetBase(st, base);
    UpdatedOutcome(st, base);
    var b := Update(a);
    PassedOn(b);
    PassKept(b);
    PassInv(b);
    var c := PassOn(b);
    CompareInv(c);
    ComparedTop(c);
    var d := Compare(c);
    KnownReady(d);
    if d.threads[d.cur].phase == Yielding {
      YieldOwnTop(d);
    }
  }

  lemma PassedOn(st: State)
    requires Inv(st) && st.threads[st.cur].phase == Passing
    ensures Closed(st) && PassOn(st).cur == st.cur && st.cur in PassOn(st).threads && PassOn(st).threads[st.cur].phase == Comparing
  {
    hide PassOn;
    PassIs(st);
  }

  lemma UpdatedOutcome(st: State, base: int)
    requires Inv(st) && st.threads[st.cur].phase == Free && st.cur != st.idle
    ensures Inv(SetBase(st, base)) && Closed(SetBase(st, base)) && Inv(Update(SetBase(st, base))) && Closed(Update(SetBase(st, base)))
    ensures Update(SetBase(st, base)).cur == st.cur && Update(SetBase(st, base)).threads.Keys == st.threads.Keys
    ensures var w := Update(SetBase(st, base)); var me, donors := w.threads[st.cur], st.threads[st.cur].donors;
      && me.phase == Passing && me.base == base && me.donors == donors && Known(donors, st.threads)
      && me.priority >= base && (forall d :: d in donors ==> me.priority >= st.threads[d].priority)
      && (me.priority == base || exists d :: d in donors && me.priority == st.threads[d].priority)
      && (forall t :: t in st.threads && t != st.cur ==> w.threads[t] == st.threads[t])
  {
    hide Base, Closed, Effective;
    InvClosed(st);
    KnownDonors(st);
    SetBaseInv(st, base);
    var a := SetBase(st, base);
    InvClosed(a);
    KnownDonors(a);
    UpdateInv(a);
    InvClosed(Update(a));
    BaseDonors(st, base);
  }

  /** The new base priority changes no donor's priority. */
  lemma BaseDonors(st: State, base: int)
    requires Inv(st) && Known(st.threads[st.cur].donors, st.threads)
    ensures forall d :: d in st.threads[st.cur].donors ==> d != st.cur && SetBase(st, base).threads[d] == st.threads[d]
  {
    hide ReadyOk, WaitOk, LockOk, DonorOk;
    CurrentLoose(st);
  }

  lemma ComparedTop(st: State)
    requires Inv(st) && st.threads[st.cur].phase == Comparing
    ensures Closed(st) && Closed(Compare(st)) && Compare(st).cur == st.cur && Kept(st, Compare(st))
    ensures Compare(st).threads[st.cur].phase != Yielding ==> Topmost(Compare(st))
  {
    hide WaitOk, LockOk, DonorOk, SortedQueue;
    forall t | t in st.ready
      ensures st.threads[t].priority <= st.threads[st.ready[0]].priority
    {
      FrontIsHighest(st.ready, st.threads, t);
    }
  }

  lemma YieldOwnTop(st: State)
    requires Inv(st) && st.threads[st.cur].phase == Yielding
    ensures Closed(st) && Topmost(YieldOwn(st)) && Inv(YieldOwn(st))
    ensures Kept(st, YieldOwn(st))
  {
    hide Base, Closed, Yield, Kept;
    InvClosed(st);
    NotIdle(st);
    OwnInv(st, st.threads[st.cur].(phase := Free));
    YieldOwnInv(st);
    YieldTop(SetCurrent(st, st.threads[st.cur].(phase := Free)));
    YieldOwnKept(st);
  }

  // ----- every step ---------------------------------------------------------------------------------------------------

  lemma AttemptTop(st: State, s: nat)
    requires Entering(st, s) && s in st.semas && (st.semas[s].value > 0 ==> Topmost(st))
    ensures Closed(st) && Topmost(Attempt(st, s))
  {
    hide Dispatch, BlockOn, Base, Closed;
    EnteringClosed(st, s);
    if st.semas[s].value == 0 {
      BlockBase(st, s);
      BlockKeys(st, s);
      DispatchTop(BlockOn(st, s));
    } else {
      SameTop(st, Attempt(st, s));
    }
  }

  lemma DownTop(st: State, s: nat)
    requires Inv(st) && Topmost(st) && st.cur != st.idle && st.threads[st.cur].phase == Free && s in st.semas && s !in st.locks
    ensures Closed(st) && Topmost(Down(st, s))
  {
    hide Base, Closed, Attempt;
    InvClosed(st);
    DownEnters(st, s);
    var asked := SetCurrent(st, st.threads[st.cur].(phase := Downing(s)));
    SameTop(st, asked);
    AttemptTop(asked, s);
  }

  lemma AcquireTop(st: State, l: nat)
    requires Inv(st) && Topmost(st) && MayAcquire(st, l)
    ensures Closed(st) && l in st.semas && Topmost(Acquire(st, l))
  {
    hide ReadyOk, WaitOk, LockOk, DonorOk, Register, Propagate, Attempt, Closed;
    InvClosed(st);
    LockKnown(st, l);
    HeldIsTaken(st);
    RegisterClosed(st, l);
    RegisterEnters(st, l);
    RegisterKeeps(st, l);
    var asked := Register(st, l);
    if l in st.holder {
      var p := st.threads[st.cur].priority;
      PropagateBase(asked, Some(l), p, DONATION_DEPTH, Some(st.cur));
      AttemptTop(Propagate(asked, Some(l), p, DONATION_DEPTH), l);
    } else {
      SameTop(st, asked);
      AttemptTop(asked, l);
    }
  }

  lemma ResumeTop(st: State)
    requires Inv(st) && Topmost(st) && Waits(st.threads[st.cur].phase)
    ensures Closed(st) && st.threads[st.cur].phase.s in st.semas && Topmost(Resume(st))
  {
    hide ReadyOk, DonorOk, Attempt;
    CurrentLoose(st);
    WeakerBase(st, st.cur);
    AttemptTop(st, st.threads[st.cur].phase.s);
  }

  lemma SleepTop(st: State)
    requires Inv(st) && st.threads[st.cur].phase == Free
    ensures Closed(st) && Topmost(Sleep(st))
  {
    hide Dispatch, ReadyOk, WaitOk, LockOk, DonorOk;
    var w := SetCurrent(st, st.threads[st.cur].(status := Blocked));
    CurrentLoose(st);
    SleepWait(st);
    SleepReady(st);
    LockFrame(st, w);
    DonorFrame(st, w, None);
    DispatchTop(w);
  }

  lemma ExitTop(st: State)
    requires Inv(st) && MayExit(st) && st.cur !in st.ready
    ensures Closed(st) && Topmost(Exit(st))
  {
    hide ReadyOk, WaitOk, LockOk, DonorOk, Gone;
    GoneClosed(st);
    GoneReady(st);
    GoneWait(st);
    GoneLocks(st);
    GoneDonors(st);
    DispatchTop(Gone(st));
  }

  lemma StartTop(st: State, higher: bool)
    requires Inv(st) && Topmost(st) && st.threads[st.cur].phase.Starting?
    ensures Closed(st) && Topmost(Start(st, higher))
  {
    hide Base, Closed, Yield;
    InvClosed(st);
    NotIdle(st);
    var w := SetCurrent(st, st.threads[st.cur].(phase := Free));
    OwnInv(st, st.threads[st.cur].(phase := Free));
    SameTop(st, w);
    YieldTop(w);
  }

  /** The steps that may leave a ready thread above the running one: those that make a thread ready without
      yielding, and those that lower the priority of the running thread. */
  predicate MayOvertake(step: Step) {
    step.WakeStep? || (step.UpStep? && step.interrupt) || step.CreateStep? || step.ReleaseStep? || step.UpdateStep?
  }

  /** Every other step leaves the highest thread running. */
  lemma StepTop(st: State, step: Step)
    requires Inv(st) && Topmost(st) && Enabled(st, step) && !MayOvertake(step)
    ensures Topmost(Next(st, step))
  {
    hide Inv, Closed, Topmost, Yield, Down, Acquire, Resume, TryAcquire, Claim, Up, SetBase, PassOn, Compare, Sleep, Start, Exit, YieldOwn;
    match step
    case Preempt => YieldTop(st);
    case DownStep(s) => DownTop(st, s);
    case AcquireStep(l) => AcquireTop(st, l);
    case ResumeStep => ResumeTop(st);
    case UpStep(s, _) => UpTopIff(st, s);
    case YieldStep => YieldOwnTop(st);
    case SleepStep => SleepTop(st);
    case StartStep(higher) => StartTop(st, higher);
    case ExitStep => ExitTop(st);
    case _ => OwnTop(st, step);
  }

  lemma OwnTop(st: State, step: Step)
    requires Inv(st) && Topmost(st) && Enabled(st, step)
    requires step.TryStep? || step.ClaimStep? || step.BaseStep? || step.PassStep? || step.CompareStep?
    ensures Topmost(Next(st, step))
  {
    hide Base, Closed, PassOn;
    if step.PassStep? {
      PassIs(st);
    }
    SameTop(st, Next(st, step));
  }

  /** thread_create makes the new thread ready, and the rest of it yields to a new thread of higher priority. */
  lemma CreateOutcome(st: State, t: Tid, priority: int)
    requires Inv(st) && Topmost(st) && t !in st.threads && st.cur != st.idle && st.threads[st.cur].phase == Free
    ensures Closed(st) && Inv(Create(st, t, priority))
    ensures var w := Create(st, t, priority);
      && w.cur == st.cur && t in w.threads && w.threads[t].priority == w.threads[t].base == priority && w.threads[t].status == Ready
      && (forall u :: u in st.threads ==> u in w.threads && w.threads[u].priority == st.threads[u].priority)
      && Topmost(Start(w, priority > st.threads[st.cur].priority))
  {
    hide Base, Closed, Enqueue, Yield;
    InvClosed(st);
    CreateInv(st, t, priority);
    CreatedReady(st, t, priority);
    var w := Create(st, t, priority);
    InvClosed(w);
    StartInv(w, false);
    YieldTop(SetCurrent(w, w.threads[w.cur].(phase := Free)));
  }

  lemma CreatedReady(st: State, t: Tid, priority: int)
    requires Closed(st) && t !in st.threads && st.cur != t
    ensures var w := Create(st, t, priority);
      && w.cur == st.cur && t in w.threads && w.threads[t].priority == w.threads[t].base == priority && w.threads[t].status == Ready
      && w.threads[w.cur].phase == Starting(t) && w.threads[w.cur].priority == st.threads[w.cur].priority
      && (forall u :: u in st.threads ==> u in w.threads && w.threads[u].priority == st.threads[u].priority)
      && (forall u :: u in w.ready <==> u in st.ready || u == t)
  {
    NewClosed(st, t, priority);
  }

  /** So the highest thread runs after every run of such steps. */
  lemma {:induction false} RunTop(st: State, steps: seq<Step>)
    requires Inv(st) && Topmost(st) && CanRun(st, steps) && forall i :: 0 <= i < |steps| ==> !MayOvertake(steps[i])
    ensures Topmost(Run(st, steps))
    decreases steps
  {
    hide Inv, Topmost, Enabled, Next, MayOvertake;
    if steps != [] {
      StepInv(st, steps[0]);
      StepTop(st, steps[0]);
      RunTop(Next(st, steps[0]), steps[1..]);
    }
  }

  // ----- locks --------------------------------------------------------------------------------------------------------

  /** lock_try_acquire takes the lock if and only if its semaphore is up; then the thread becomes the holder in the
      second half. */
  lemma TryOutcome(st: State, l: nat)
    requires Inv(st) && MayAcquire(st, l) && l in st.semas
    ensures var w := TryAcquire(st, l);
      && w.cur == st.cur && w.threads.Keys == st.threads.Keys && w.semas.Keys == st.semas.Keys && w.holder == st.holder && w.ready == st.ready
      && (w.threads[st.cur].phase == Claiming(l) <==> st.semas[l].value > 0)
      && (st.semas[l].value == 0 ==> w == st)
      && (st.semas[l].value > 0 ==> w.semas[l] == st.semas[l].(value := st.semas[l].value - 1) && l !in st.holder)
      && (st.semas[l].value > 0 ==> Claim(w).holder == st.holder[l := st.cur] && Claim(w).cur == st.cur && Claim(w).threads[st.cur].phase == Free)
  {
    hide Base;
    HeldIsTaken(st);
  }

  /** The first half of lock_release frees that lock and no other; the second puts its semaphore up and wakes a
      waiter of the highest priority. */
  lemma ReleaseOutcome(st: State, l: nat)
    requires Inv(st) && st.threads[st.cur].phase == Free && l in st.holder && st.holder[l] == st.cur
    ensures Closed(st) && Inv(Release(st, l)) && Closed(Release(st, l)) && l in st.semas && l in Release(st, l).semas
    ensures var w := Release(st, l);
      w.cur == st.cur && l !in w.holder && forall k :: k != l ==> (k in w.holder <==> k in st.holder) && (k in w.holder ==> w.holder[k] == st.holder[k])
    ensures var w := Up(Release(st, l), l, false);
      && l in w.semas && w.semas[l].value == 1 && l !in w.holder
      && (st.semas[l].waiters != [] ==> exists m :: m in st.semas[l].waiters && m in w.threads && w.threads[m].status != Blocked)
  {
    hide Base, Closed, NotFor, Effective, Up;
    InvClosed(st);
    KnownDonors(st);
    HeldIsTaken(st);
    HolderKeys(st);
    ReleaseInv(st, l);
    var w := Release(st, l);
    InvClosed(w);
    LockKnown(st, l);
    UpWakesHighest(w, l, false);
    UpHolders(w, l, false);
    if st.semas[l].waiters != [] {
      var m :| WokenBy(w, Up(w, l, false), l, m);
    }
  }

  /** sema_down gets past a semaphore that is up, and blocks on one that is not. */
  lemma DownOutcome(st: State, s: nat)
    requires Inv(st) && st.cur != st.idle && st.threads[st.cur].phase == Free && s in st.semas && s !in st.locks
    ensures Closed(st) && Closed(Down(st, s)) && st.cur in Down(st, s).threads && s in Down(st, s).semas
    ensures var w := Down(st, s); st.semas[s].value > 0 ==>
      w.cur == st.cur && w.semas[s].value == st.semas[s].value - 1 && w.threads[st.cur].phase == Free && w.holder == st.holder
    ensures var w := Down(st, s); st.semas[s].value == 0 ==>
      w.cur != st.cur && st.cur in w.semas[s].waiters && w.semas[s].value == 0 && w.threads[st.cur].status == Blocked
  {
    hide Base, Closed, InsertOrdered;
    InvClosed(st);
    KnownReady(st);
    WaitersKnown(st, s);
    DownInv(st, s);
    InvClosed(Down(st, s));
    if st.semas[s].value == 0 {
      SchedulerRuns.WaiterBlocked(Down(st, s), s, st.cur);
    }
  }

  /** thread_exit takes the thread away, leaves every other one with its priority, and runs another. */
  lemma ExitOutcome(st: State)
    requires Inv(st) && MayExit(st) && st.cur !in st.ready
    ensures var w := Exit(st);
      && w.threads.Keys == st.threads.Keys - {st.cur} && w.cur != st.cur && w.cur in w.threads && w.threads[w.cur].status == Running
      && (forall t :: t in w.threads ==> w.threads[t].priority == st.threads[t].priority && w.threads[t].base == st.threads[t].base)
      && w.semas == st.semas && w.holder == st.holder
  {
    hide Base;
    GoneClosed(st);
    KnownReady(Gone(st));
  }

  // ----- donation -------------------------------------------------------------------------------------------------------

  function First(chain: seq<Tid>, n: nat): seq<Tid> {
    if |chain| <= n then chain else chain[..n]
  }

  /** Donation gives the priority P to the first threads of the chain, as many as it may reach, and changes no other
      priority. */
  lemma {:induction false} PropagateRaises(st: State, l: Option<nat>, p: int, fuel: nat)
    requires Closed(st)
    ensures var w := Propagate(st, l, p, fuel);
      w.threads.Keys == st.threads.Keys &&
      forall t :: t in st.threads ==> w.threads[t].priority == if t in First(Chain(st, l, p, {}), fuel) then p else st.threads[t].priority
    decreases fuel
  {
    hide Closed, Raise;
    if l.Some? && l.value in st.holder {
      HolderKnown(st, l.value);
      var h := st.holder[l.value];
      if fuel > 0 && st.threads[h].priority < p {
        KnownReady(st);
        RaiseClosed(st, h, p);
        RaiseTouches(st, h, p);
        var w, above := Raise(st, h, p), st.threads[h].blocking;
        PropagateRaises(w, above, p, fuel - 1);
        ChainRaised(st, w, h, above, p, {});
        assert {} + {h} == {h};
        assert Chain(st, l, p, {}) == [h] + Chain(w, above, p, {});
        FirstMore(h, Chain(w, above, p, {}), fuel);
      }
    }
  }

  lemma FirstMore(h: Tid, chain: seq<Tid>, n: nat)
    requires n > 0
    ensures First([h] + chain, n) == [h] + First(chain, n - 1)
  {
  }

  /** lock_acquire raises to the priority of the caller exactly the first DONATION_DEPTH threads of the chain of
      lower-priority holders above the lock, and changes no other priority. */
  lemma AcquireRaises(st: State, l: nat)
    requires Inv(st) && MayAcquire(st, l)
    ensures Closed(st) && l in st.semas
    ensures var w := Acquire(st, l); var p := st.threads[st.cur].priority;
      w.threads.Keys == st.threads.Keys &&
      forall t :: t in st.threads ==>
        w.threads[t].priority == if l in st.holder && t in First(Chain(st, Some(l), p, {}), DONATION_DEPTH) then p else st.threads[t].priority
  {
    hide Base, Closed, Register, Propagate, Attempt, Chain, First;
    InvClosed(st);
    LockKnown(st, l);
    RegisterClosed(st, l);
    RegisterKeeps(st, l);
    var asked, p := Register(st, l), st.threads[st.cur].priority;
    PropagateClosed(asked, Some(l), p, DONATION_DEPTH);
    PropagateRaises(asked, Some(l), p, DONATION_DEPTH);
    ChainRegistered(st, asked, Some(l), p, {});
    AttemptThreads(if l in st.holder then Propagate(asked, Some(l), p, DONATION_DEPTH) else asked, l);
  }

  // ----- waiting in line ------------------------------------------------------------------------------------------------

  /** A thread joins a list in front of the first that has less priority, or at the end. */
  lemma {:induction false} JoinsAt(q: seq<Tid>, x: Tid, ts: map<Tid, Thread>) returns (i: nat)
    requires x in ts && Known(q, ts)
    ensures i <= |q| && InsertOrdered(q, x, ts) == q[..i] + [x] + q[i..]
    ensures (forall j :: 0 <= j < i ==> ts[q[j]].priority >= ts[x].priority) && (i < |q| ==> ts[q[i]].priority < ts[x].priority)
  {
    if q == [] || ts[x].priority > ts[q[0]].priority {
      i := 0;
    } else {
      var k := JoinsAt(q[1..], x, ts);
      i := k + 1;
      Shifted(q, k, x);
    }
  }

  lemma Shifted(q: seq<Tid>, k: nat, x: Tid)
    requires q != [] && k <= |q[1..]|
    ensures [q[0]] + (q[1..][..k] + [x] + q[1..][k..]) == q[..k + 1] + [x] + q[k + 1..]
  {
    assert q[1..][k..] == q[k + 1..];
  }

  /** Along the list nobody has more priority than those in front. */
  ghost predicate Falling(q: seq<Tid>, ts: map<Tid, Thread>)
    requires Known(q, ts)
  {
    forall i, j :: 0 <= i < j < |q| ==> ts[q[i]].priority >= ts[q[j]].priority
  }

  lemma JoinedFalls(q: seq<Tid>, x: Tid, i: nat, ts: map<Tid, Thread>)
    requires x in ts && Known(q, ts) && Falling(q, ts) && i <= |q|
    requires (forall j :: 0 <= j < i ==> ts[q[j]].priority >= ts[x].priority) && (i < |q| ==> ts[q[i]].priority < ts[x].priority)
    ensures Known(q[..i] + [x] + q[i..], ts) && Falling(q[..i] + [x] + q[i..], ts)
    ensures forall j :: 0 <= j < |q| ==> (j < i <==> ts[q[j]].priority >= ts[x].priority)
  {
  }

  /** On a wait list along which priorities fall, a thread that blocks stands behind everybody of at least its own
      priority and in front of everybody else, and priorities still fall. */
  lemma BlocksInLine(st: State, s: nat)
    requires Closed(st) && s in st.semas && Known(st.semas[s].waiters, st.threads) && Falling(st.semas[s].waiters, st.threads)
    ensures var q, w := st.semas[s].waiters, BlockOn(st, s);
      && Known(w.semas[s].waiters, st.threads) && Falling(w.semas[s].waiters, st.threads)
      && exists i :: 0 <= i <= |q| && w.semas[s].waiters == q[..i] + [st.cur] + q[i..] && StandsAt(q, i, st.cur, st.threads)
  {
    hide Falling, InsertOrdered;
    var q := st.semas[s].waiters;
    var i := JoinsAt(q, st.cur, st.threads);
    JoinedFalls(q, st.cur, i, st.threads);
    assert StandsAt(q, i, st.cur, st.threads);
  }

  /** Exactly the first I of the list have at least the priority of X. */
  ghost predicate StandsAt(q: seq<Tid>, i: nat, x: Tid, ts: map<Tid, Thread>) {
    x in ts && forall j :: 0 <= j < |q| ==> q[j] in ts && (j < i <==> ts[q[j]].priority >= ts[x].priority)
  }

  /** And sema_up wakes the one at the front, so that waiters of the same priority are woken in the order in which
      they came. */
  lemma WakesInLine(st: State, s: nat, interrupt: bool)
    requires Closed(st) && s in st.semas && st.semas[s].waiters != []
    requires Known(st.semas[s].waiters, st.threads) && Falling(st.semas[s].waiters, st.threads)
    ensures s in Up(st, s, interrupt).semas && WokenBy(st, Up(st, s, interrupt), s, st.semas[s].waiters[0])
  {
    hide Up, Without, Falling, Ahead;
    UpWakesHighest(st, s, interrupt);
    var q := st.semas[s].waiters;
    var m :| WokenBy(st, Up(st, s, interrupt), s, m);
    var i :| 0 <= i < |q| && q[i] == m && Ahead(st, q[..i], m);
    if i > 0 {
      NotAhead(st, q, i);
    }
  }

  lemma NotAhead(st: State, q: seq<Tid>, i: nat)
    requires Known(q, st.threads) && Falling(q, st.threads) && 0 < i < |q|
    ensures !Ahead(st, q[..i], q[i])
  {
    assert q[..i][0] == q[0];
  }

  /** A thread that blocks overtakes a waiter of at least its own priority if and only if that waiter stands behind
      one of less, as only a thread that was donated priority while it waited does. */
  lemma Overtakes(st: State, s: nat, j: nat)
    requires Closed(st) && s in st.semas && Known(st.semas[s].waiters, st.threads)
    requires j < |st.semas[s].waiters| && st.threads[st.semas[s].waiters[j]].priority >= st.threads[st.cur].priority
    ensures var q := st.semas[s].waiters;
      exists i :: 0 <= i <= |q| && BlockOn(st, s).semas[s].waiters == q[..i] + [st.cur] + q[i..] && (i <= j <==> LowerBefore(st, q, j))
  {
    hide InsertOrdered;
    var q := st.semas[s].waiters;
    var i := JoinsAt(q, st.cur, st.threads);
    assert i <= j <==> LowerBefore(st, q, j);
  }

  /** Somebody with less priority than the running thread is among the first J of the list. */
  ghost predicate LowerBefore(st: State, q: seq<Tid>, j: nat)
    requires st.cur in st.threads && Known(q, st.threads)
  {
    exists k :: 0 <= k < j && k < |q| && st.threads[q[k]].priority < st.threads[st.cur].priority
  }

  /** So it does in the simplest case: a thread Y with the same priority waits already, behind one with less, and is
      woken after X, which comes later. */
  lemma OvertakenWaiter(st: State, s: nat, low: Tid, y: Tid)
    requires Closed(st) && s in st.semas && st.semas[s].waiters == [low, y] && low in st.threads && y in st.threads
    requires st.threads[low].priority < st.threads[y].priority == st.threads[st.cur].priority
    ensures BlockOn(st, s).semas[s].waiters == [st.cur, low, y] && FirstMax([st.cur, low, y], st.threads) == st.cur
  {
    hide Closed;
    assert [st.cur, low, y][..2] == [st.cur, low];
    assert [st.cur, low][..1] == [st.cur];
  }
}
