/** No wakeup is lost (src/threads/synch.c): over every run of the scheduler. */
module Wakeups {
  import opened Options
  import opened Scheduling
  import opened SchedulerRuns

  /** The threads inside sema_down or lock_acquire on S that are not blocked: each will look at the value. */
  ghost function Awake(st: State, s: nat): set<Tid> {
    set t | t in st.threads && Waits(st.threads[t].phase) && st.threads[t].phase.s == s && st.threads[t].status != Blocked
  }

  /** While anybody is blocked on a semaphore, its value is at most the number of those awake. */
  ghost predicate WakeOk(st: State) {
    forall s :: s in st.semas ==> Enough(st.semas[s], |Awake(st, s)|)
  }

  predicate Enough(sema: Sema, awake: nat) {
    sema.waiters == [] || sema.value <= awake
  }

  // ----- steps that neither block a waiter nor touch a semaphore -----------------------------------------

  ghost predicate Rouses(st: State, w: State) {
    && w.semas == st.semas
    && (forall t :: t in st.threads && Waits(st.threads[t].phase) && st.threads[t].status != Blocked ==>
          t in w.threads && w.threads[t].phase == st.threads[t].phase && w.threads[t].status != Blocked)
  }

  lemma {:induction false} Subset(a: set<Tid>, b: set<Tid>)
    requires a <= b
    ensures |a| <= |b|
    decreases a
  {
    if a != {} {
      var x :| x in a;
      Subset(a - {x}, b - {x});
    }
  }

  lemma RousesOk(st: State, w: State)
    requires WakeOk(st) && Rouses(st, w)
    ensures WakeOk(w)
  {
    forall s | s in w.semas
      ensures Enough(w.semas[s], |Awake(w, s)|)
    {
      assert Enough(st.semas[s], |Awake(st, s)|);
      assert Awake(st, s) <= Awake(w, s);
      Subset(Awake(st, s), Awake(w, s));
    }
  }

  lemma RousesTrans(st: State, u: State, w: State)
    requires Rouses(st, u) && Rouses(u, w)
    ensures Rouses(st, w)
  {
  }

  lemma TouchRouses(st: State, w: State, h: Tid)
    requires Touches(st, w, h) && (w.threads[h].status == Blocked ==> st.threads[h].status == Blocked)
    ensures Rouses(st, w)
  {
  }

  lemma DispatchRouses(st: State)
    requires st.idle in st.threads && Known(st.ready, st.threads)
    ensures Rouses(st, Dispatch(st))
  {
  }

  lemma YieldRouses(st: State)
    requires Closed(st)
    ensures Rouses(st, Yield(st))
  {
    hide Closed, Dispatch, Enqueue, Rouses;
    KnownReady(st);
    if st.cur == st.idle {
      var w := SetCurrent(st, st.threads[st.cur].(status := Ready));
      TouchRouses(st, w, st.cur);
      DispatchRouses(w);
      RousesTrans(st, w, Dispatch(w));
    } else {
      EnqueueTouches(st, st.cur);
      EnqueueClosed(st, st.cur);
      KnownReady(Enqueue(st, st.cur));
      var w := Enqueue(st, st.cur);
      TouchRouses(st, w, st.cur);
      DispatchRouses(w);
      RousesTrans(st, w, Dispatch(w));
    }
  }

  lemma {:induction false} PropagateRouses(st: State, l: Option<nat>, p: int, fuel: nat)
    requires Closed(st)
    ensures Rouses(st, Propagate(st, l, p, fuel)) && Propagate(st, l, p, fuel).cur == st.cur
    ensures Propagate(st, l, p, fuel).threads.Keys == st.threads.Keys
    decreases fuel
  {
    hide Closed, Raise, Rouses;
    KnownReady(st);
    RousesSelf(st);
    if l.Some? && fuel > 0 && l.value in st.holder {
      HolderKnown(st, l.value);
      var h := st.holder[l.value];
      if st.threads[h].priority < p {
        RaiseClosed(st, h, p);
        RaiseTouches(st, h, p);
        TouchRouses(st, Raise(st, h, p), h);
        PropagateRouses(Raise(st, h, p), st.threads[h].blocking, p, fuel - 1);
        RousesTrans(st, Raise(st, h, p), Propagate(Raise(st, h, p), st.threads[h].blocking, p, fuel - 1));
      }
    }
  }

  lemma RousesSelf(st: State)
    ensures Rouses(st, st)
  {
  }

  /** The current thread is not waiting, so it does not count. */
  lemma OwnRouses(st: State, w: State)
    requires st.cur in st.threads && !Waits(st.threads[st.cur].phase) && w.semas == st.semas
    requires forall t :: t in st.threads && t != st.cur ==> t in w.threads && w.threads[t] == st.threads[t]
    ensures Rouses(st, w)
  {
  }

  // ----- trying to get past a semaphore --------------------------------------------------------------------

  lemma Without1(a: set<Tid>, b: set<Tid>, x: Tid)
    requires x in a && a - {x} <= b
    ensures |a| <= |b| + 1
  {
    Subset(a - {x}, b);
  }

  lemma ProceedWakes(st: State, s: nat)
    requires Closed(st) && WakeOk(st) && s in st.semas && st.semas[s].value > 0
    requires Waits(st.threads[st.cur].phase) && st.threads[st.cur].phase.s == s && st.threads[st.cur].status != Blocked
    ensures WakeOk(Proceed(st, s))
  {
    hide Closed;
    KnownReady(st);
    var w := Proceed(st, s);
    forall z | z in w.semas
      ensures Enough(w.semas[z], |Awake(w, z)|)
    {
      assert Enough(st.semas[z], |Awake(st, z)|);
      if z == s {
        Without1(Awake(st, s), Awake(w, s), st.cur);
      } else {
        Subset(Awake(st, z), Awake(w, z));
      }
    }
  }

  lemma BlockWakes(st: State, s: nat)
    requires Closed(st) && WakeOk(st) && s in st.semas && st.semas[s].value == 0
    requires Waits(st.threads[st.cur].phase) && st.threads[st.cur].phase.s == s
    ensures WakeOk(BlockOn(st, s))
  {
    hide InsertOrdered;
    var w := BlockOn(st, s);
    forall z | z in w.semas
      ensures Enough(w.semas[z], |Awake(w, z)|)
    {
      assert Enough(st.semas[z], |Awake(st, z)|);
      if z != s {
        Subset(Awake(st, z), Awake(w, z));
      }
    }
  }

  lemma BlockKnown(st: State, s: nat)
    requires Closed(st) && s in st.semas
    ensures BlockOn(st, s).idle in BlockOn(st, s).threads && Known(BlockOn(st, s).ready, BlockOn(st, s).threads)
  {
    hide InsertOrdered;
  }

  lemma AttemptWakes(st: State, s: nat)
    requires Closed(st) && WakeOk(st) && s in st.semas && st.threads[st.cur].status != Blocked
    requires Waits(st.threads[st.cur].phase) && st.threads[st.cur].phase.s == s
    ensures WakeOk(Attempt(st, s))
  {
    hide Closed, WakeOk, BlockOn, Dispatch, Proceed, Rouses;
    if st.semas[s].value == 0 {
      BlockKnown(st, s);
      BlockWakes(st, s);
      DispatchRouses(BlockOn(st, s));
      RousesOk(BlockOn(st, s), Dispatch(BlockOn(st, s)));
    } else {
      ProceedWakes(st, s);
    }
  }

  lemma DownWakes(st: State, s: nat)
    requires Inv(st) && WakeOk(st) && s in st.semas && st.threads[st.cur].phase == Free
    ensures WakeOk(Down(st, s))
  {
    hide Base, WakeOk, Attempt, Rouses, Closed;
    InvClosed(st);
    KnownReady(st);
    KnownDonors(st);
    var asked := SetCurrent(st, st.threads[st.cur].(phase := Downing(s)));
    SetCurrentClosed(st, st.threads[st.cur].(phase := Downing(s)));
    OwnRouses(st, asked);
    RousesOk(st, asked);
    AttemptWakes(asked, s);
  }

  lemma RegisterRouses(st: State, l: nat)
    requires Closed(st) && !Waits(st.threads[st.cur].phase)
    ensures Rouses(st, Register(st, l))
  {
    hide InsertOrdered;
  }

  lemma AcquireWakes(st: State, l: nat)
    requires Inv(st) && WakeOk(st) && MayAcquire(st, l)
    ensures l in st.semas && WakeOk(Acquire(st, l))
  {
    hide Base, Closed, WakeOk, Attempt, Rouses, Register, Propagate;
    InvClosed(st);
    KnownReady(st);
    LockKnown(st, l);
    RegisterClosed(st, l);
    RegisterKeeps(st, l);
    RegisterRouses(st, l);
    RegisterStatus(st, l);
    var asked, p := Register(st, l), st.threads[st.cur].priority;
    RousesOk(st, asked);
    if l in st.holder {
      var w := Propagate(asked, Some(l), p, DONATION_DEPTH);
      PropagateClosed(asked, Some(l), p, DONATION_DEPTH);
      PropagateRouses(asked, Some(l), p, DONATION_DEPTH);
      RousesOk(asked, w);
      RousedOne(asked, w, st.cur);
      AttemptWakes(w, l);
    } else {
      AttemptWakes(asked, l);
    }
  }

  lemma RousedOne(st: State, w: State, t: Tid)
    requires Rouses(st, w) && t in st.threads && Waits(st.threads[t].phase) && st.threads[t].status != Blocked
    ensures t in w.threads && w.threads[t].phase == st.threads[t].phase && w.threads[t].status != Blocked && w.semas == st.semas
  {
  }

  lemma RegisterStatus(st: State, l: nat)
    requires Closed(st)
    ensures st.cur in Register(st, l).threads && Register(st, l).threads[st.cur].status == st.threads[st.cur].status
  {
    hide InsertOrdered;
  }

  // ----- sema_up -----------------------------------------------------------------------------------------------

  /** The waiter taken off the list makes up for the value. */
  lemma WokenWakes(st: State, s: nat)
    requires Inv(st) && WakeOk(st) && s in st.semas && st.semas[s].waiters != [] && !Waits(st.threads[st.cur].phase)
    ensures Closed(Post(st, s)) && s in Post(st, s).semas && Post(st, s).semas[s].waiters == st.semas[s].waiters
    ensures var off, m := Unlisted(Post(st, s), s), FirstMax(st.semas[s].waiters, Post(st, s).threads);
      Known(off.ready, off.threads) && m in off.threads && WakeOk(Enqueue(off, m))
  {
    hide ReadyOk, LockOk, DonorOk, FirstMax, Without, WakeOk, Unlisted, Enqueue, Post;
    PostKept(st, s);
    PostFacts(st, s);
    var posted := Post(st, s);
    var m := FirstMax(st.semas[s].waiters, posted.threads);
    UnlistedKept(posted, s);
    UnlistedFacts(posted, s);
    var off := Unlisted(posted, s);
    KnownReady(off);
    EnqueueTouches(off, m);
    WokenCounts(st, off, Enqueue(off, m), s, m);
  }

  lemma PostFacts(st: State, s: nat)
    requires Closed(st) && s in st.semas && !Waits(st.threads[st.cur].phase)
    ensures var w := Post(st, s);
      && w.threads.Keys == st.threads.Keys && w.semas == st.semas[s := st.semas[s].(value := st.semas[s].value + 1)]
      && (forall t :: t in st.threads ==>
            w.threads[t].status == st.threads[t].status && (Waits(w.threads[t].phase) <==> Waits(st.threads[t].phase)) &&
            (Waits(st.threads[t].phase) ==> w.threads[t].phase == st.threads[t].phase))
  {
  }

  lemma UnlistedFacts(st: State, s: nat)
    requires Closed(st) && s in st.semas && st.semas[s].waiters != []
    ensures var w := Unlisted(st, s);
      w.threads == st.threads && w.semas.Keys == st.semas.Keys && w.semas[s].value == st.semas[s].value &&
      forall z :: z in st.semas && z != s ==> w.semas[z] == st.semas[z]
  {
    hide FirstMax, Without;
  }

  lemma WokenCounts(st: State, off: State, w: State, s: nat, m: Tid)
    requires Closed(st) && WaitOk(st, None) && WakeOk(st) && s in st.semas && m in st.semas[s].waiters && Touches(off, w, m)
    requires off.threads.Keys == st.threads.Keys && off.semas.Keys == st.semas.Keys && w.threads[m].status == Ready
    requires off.semas[s].value == st.semas[s].value + 1 && forall z :: z in st.semas && z != s ==> off.semas[z] == st.semas[z]
    requires forall t :: t in st.threads ==>
      off.threads[t].status == st.threads[t].status && (Waits(off.threads[t].phase) <==> Waits(st.threads[t].phase)) &&
      (Waits(st.threads[t].phase) ==> off.threads[t].phase == st.threads[t].phase)
    ensures WakeOk(w)
  {
    hide Closed, Awake;
    BlockedWaiter(st, s, m);
    forall z | z in w.semas
      ensures Enough(w.semas[z], |Awake(w, z)|)
    {
      assert Enough(st.semas[z], |Awake(st, z)|);
      MoreAwake(st, off, w, m, z);
      if z == s {
        Subset(Awake(st, s) + {m}, Awake(w, s));
      } else {
        Subset(Awake(st, z), Awake(w, z));
      }
    }
  }

  lemma BlockedWaiter(st: State, s: nat, m: Tid)
    requires Closed(st) && WaitOk(st, None) && s in st.semas && m in st.semas[s].waiters
    ensures m in st.threads && st.threads[m].status == Blocked && Waits(st.threads[m].phase) && st.threads[m].phase.s == s
  {
  }

  /** Whoever was awake stays so, and M is awake too. */
  lemma MoreAwake(st: State, off: State, w: State, m: Tid, z: nat)
    requires m in st.threads && st.threads[m].status == Blocked && Waits(st.threads[m].phase) && Touches(off, w, m)
    requires off.threads.Keys == st.threads.Keys && w.threads[m].status == Ready
    requires forall t :: t in st.threads ==>
      off.threads[t].status == st.threads[t].status && (Waits(off.threads[t].phase) <==> Waits(st.threads[t].phase)) &&
      (Waits(st.threads[t].phase) ==> off.threads[t].phase == st.threads[t].phase)
    ensures Awake(st, z) <= Awake(w, z) && m !in Awake(st, z) && (st.threads[m].phase.s == z ==> m in Awake(w, z))
  {
  }

  lemma PostWakes(st: State, s: nat)
    requires Closed(st) && WakeOk(st) && s in st.semas && st.semas[s].waiters == [] && !Waits(st.threads[st.cur].phase)
    ensures WakeOk(Post(st, s))
  {
    hide Post, Closed;
    KnownReady(st);
    PostFacts(st, s);
    var w := Post(st, s);
    forall z | z in w.semas
      ensures Enough(w.semas[z], |Awake(w, z)|)
    {
      assert Enough(st.semas[z], |Awake(st, z)|);
      Subset(Awake(st, z), Awake(w, z));
    }
  }

  lemma UpWakes(st: State, s: nat, interrupt: bool)
    requires Inv(st) && WakeOk(st) && MayPost(st, s, interrupt)
    ensures s in st.semas && Closed(st) && WakeOk(Up(st, s, interrupt))
  {
    hide Base, WakeOk, Closed, FirstMax, Yield, Rouses, Post, Unlisted, Enqueue;
    InvClosed(st);
    KnownReady(st);
    PostFacts(st, s);
    if st.semas[s].waiters == [] {
      PostWakes(st, s);
    } else {
      WokenWakes(st, s);
      var posted := Post(st, s);
      WaitersKnown(posted, s);
      UnlistedKept(posted, s);
      var off, m := Unlisted(posted, s), FirstMax(posted.semas[s].waiters, posted.threads);
      EnqueueClosed(off, m);
      YieldRouses(Enqueue(off, m));
      RousesOk(Enqueue(off, m), Yield(Enqueue(off, m)));
    }
  }

  // ----- every step --------------------------------------------------------------------------------------------------

  lemma SleepWakes(st: State)
    requires Inv(st) && WakeOk(st) && st.threads[st.cur].phase == Free
    ensures WakeOk(Sleep(st))
  {
    hide Base, WakeOk, Dispatch, Rouses, Closed;
    InvClosed(st);
    KnownReady(st);
    KnownDonors(st);
    var w := SetCurrent(st, st.threads[st.cur].(status := Blocked));
    SetCurrentClosed(st, st.threads[st.cur].(status := Blocked));
    KnownReady(w);
    OwnRouses(st, w);
    RousesOk(st, w);
    DispatchRouses(w);
    RousesOk(w, Dispatch(w));
  }

  lemma ExitWakes(st: State)
    requires Inv(st) && WakeOk(st) && MayExit(st) && st.cur !in st.ready
    ensures WakeOk(Exit(st))
  {
    hide Base, WakeOk, Dispatch, Rouses, Closed;
    GoneClosed(st);
    KnownReady(Gone(st));
    OwnRouses(st, Gone(st));
    RousesOk(st, Gone(st));
    DispatchRouses(Gone(st));
    RousesOk(Gone(st), Dispatch(Gone(st)));
  }

  lemma TryWakes(st: State, l: nat)
    requires st.cur in st.threads && WakeOk(st) && l in st.semas && st.threads[st.cur].phase == Free
    ensures WakeOk(TryAcquire(st, l))
  {
    var w := TryAcquire(st, l);
    forall z | z in w.semas
      ensures Enough(w.semas[z], |Awake(w, z)|)
    {
      assert Enough(st.semas[z], |Awake(st, z)|);
      Subset(Awake(st, z), Awake(w, z));
    }
  }

  lemma FreedYield(st: State)
    requires Inv(st) && WakeOk(st) && !Waits(st.threads[st.cur].phase)
    ensures var w := SetCurrent(st, st.threads[st.cur].(phase := Free)); Closed(w) && WakeOk(w) && WakeOk(Yield(w))
  {
    hide Base, WakeOk, Yield, Rouses, Closed;
    InvClosed(st);
    KnownReady(st);
    KnownDonors(st);
    var w := SetCurrent(st, st.threads[st.cur].(phase := Free));
    SetCurrentClosed(st, st.threads[st.cur].(phase := Free));
    OwnRouses(st, w);
    RousesOk(st, w);
    YieldRouses(w);
    RousesOk(w, Yield(w));
  }

  lemma CreateWakes(st: State, t: Tid, priority: int)
    requires Inv(st) && WakeOk(st) && t !in st.threads && st.threads[st.cur].phase == Free
    ensures Closed(st) && WakeOk(Create(st, t, priority))
  {
    hide Base, WakeOk, Rouses, Closed, Enqueue;
    InvClosed(st);
    KnownReady(st);
    var w := New(st, t, priority);
    NewClosed(st, t, priority);
    KnownReady(w);
    OwnRouses(st, w);
    EnqueueTouches(w, t);
    EnqueueCur(w, t);
    TouchRouses(w, Enqueue(w, t), t);
    RousesOk(st, w);
    RousesOk(w, Enqueue(w, t));
    OwnRouses(Enqueue(w, t), Create(st, t, priority));
    RousesOk(Enqueue(w, t), Create(st, t, priority));
  }

  /** Steps in which only the current thread changes, and does not wait. */
  lemma OwnWakes(st: State, step: Step)
    requires Inv(st) && WakeOk(st) && Enabled(st, step)
    requires step.ClaimStep? || step.ReleaseStep? || step.BaseStep? || step.UpdateStep? || step.PassStep? || step.CompareStep?
    ensures WakeOk(Next(st, step))
  {
    hide Base, WakeOk, Rouses, Closed, NotFor, Effective, PassOn;
    InvClosed(st);
    KnownReady(st);
    KnownDonors(st);
    if step.PassStep? {
      PassIs(st);
    }
    OwnRouses(st, Next(st, step));
    RousesOk(st, Next(st, step));
  }

  lemma StepWakes(st: State, step: Step)
    requires Inv(st) && WakeOk(st) && Enabled(st, step)
    ensures WakeOk(Next(st, step))
  {
    hide Inv, Closed, WakeOk, Rouses, Yield, Down, Acquire, Resume, TryAcquire, Claim, Release, Up, SetBase, Update, PassOn, Compare, Sleep,
      Enqueue, Create, Exit, Attempt;
    InvClosed(st);
    KnownReady(st);
    match step
    case Preempt => YieldRouses(st); RousesOk(st, Yield(st));
    case DownStep(s) => DownWakes(st, s);
    case AcquireStep(l) => AcquireWakes(st, l);
    case ResumeStep => ResumeWakes(st);
    case TryStep(l) => LockKnown(st, l); TryWakes(st, l);
    case UpStep(s, interrupt) => UpWakes(st, s, interrupt);
    case YieldStep => FreedYield(st);
    case StartStep(higher) => FreedYield(st);
    case SleepStep => SleepWakes(st);
    case WakeStep(t) => EnqueueTouches(st, t); TouchRouses(st, Enqueue(st, t), t); RousesOk(st, Enqueue(st, t));
    case CreateStep(t, priority) => CreateWakes(st, t, priority);
    case ExitStep => ExitWakes(st);
    case _ => OwnWakes(st, step);
  }

  lemma ResumeWakes(st: State)
    requires Inv(st) && WakeOk(st) && Waits(st.threads[st.cur].phase) && st.threads[st.cur].phase.s in st.semas
    ensures WakeOk(Resume(st))
  {
    hide ReadyOk, WaitOk, LockOk, DonorOk, WakeOk, Attempt;
    AttemptWakes(st, st.threads[st.cur].phase.s);
  }

  /** In every state reached from the start, a semaphore with a value that somebody is blocked on has a thread
      awake that will take it: no wakeup is lost. */
  lemma {:induction false} RunWakes(st: State, steps: seq<Step>)
    requires Inv(st) && WakeOk(st) && CanRun(st, steps)
    ensures WakeOk(Run(st, steps))
    decreases steps
  {
    hide Inv, WakeOk, Enabled, Next;
    if steps != [] {
      StepInv(st, steps[0]);
      StepWakes(st, steps[0]);
      RunWakes(Next(st, steps[0]), steps[1..]);
    }
  }

  lemma NoLostWakeup(st: State, steps: seq<Step>, s: nat)
    requires Initial(st) && CanRun(st, steps) && s in Run(st, steps).semas
    ensures var w := Run(st, steps);
      w.semas[s].waiters != [] ==> w.semas[s].value <= |Awake(w, s)|
    ensures var w := Run(st, steps);
      w.semas[s].waiters != [] && w.semas[s].value > 0 ==>
        exists t :: t in w.threads && w.threads[t].status != Blocked && Waits(w.threads[t].phase) && w.threads[t].phase.s == s
  {
    hide Inv, CanRun, Run;
    InitialInv(st);
    RunWakes(st, steps);
    var w := Run(st, steps);
    assert Enough(w.semas[s], |Awake(w, s)|);
    if w.semas[s].waiters != [] && w.semas[s].value > 0 {
      var t :| t in Awake(w, s);
    }
  }
}
