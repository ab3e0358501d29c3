/** The scheduler and the timer together (src/threads, src/devices/timer.c): over every run, threads sleep exactly
    as long as they asked to. */
module Sleeping {
  import opened Options
  import opened Scheduling
  import opened SchedulerRuns
  import opened Sequences
  import Timers

  datatype Machine = Machine(st: State, world: Timers.World)

  /** A step of the scheduler, a thread going to sleep for N ticks, or a timer interrupt, which unblocks the
      threads in ORDER. */
  datatype Move = Other(step: Step) | SleepFor(n: int) | Tick(order: seq<Tid>)

  /** T is asleep: blocked, but on no semaphore. */
  ghost predicate Dozes(st: State, t: Tid) {
    t in st.threads && t != st.idle && st.threads[t].status == Blocked && st.threads[t].phase == Free
  }

  /** Exactly the threads that are asleep have a tick to wake up at, and it is still to come. */
  ghost predicate JointOk(m: Machine) {
    && Inv(m.st)
    && (forall t :: t in m.world.due <==> Dozes(m.st, t))
    && (forall t :: t in m.world.due ==> m.world.due[t] > m.world.now)
  }

  /** thread_unblock for each thread in ORDER. */
  function WakeAll(st: State, order: seq<Tid>): State
    requires Closed(st) && forall t :: t in order ==> t in st.threads
    decreases order
  {
    if order == [] then st
    else
      EnqueueClosed(st, order[0]);
      WakeAll(Enqueue(st, order[0]), order[1..])
  }

  /** The only sleep that the timer does not end is that of the idle thread. */
  ghost predicate Possible(m: Machine, move: Move) {
    && Closed(m.st)
    && match move
       case Other(step) => Enabled(m.st, step) && !step.WakeStep? && (step.SleepStep? ==> m.st.cur == m.st.idle)
       case SleepFor(n) => m.st.cur != m.st.idle && m.st.threads[m.st.cur].phase == Free
       case Tick(order) =>
         !Waits(m.st.threads[m.st.cur].phase) && Distinct(order) && forall t :: t in order <==> t in Timers.Woken(m.world)
  }

  ghost function Moved(m: Machine, move: Move): Machine
    requires Possible(m, move) && forall t :: t in m.world.due ==> t in m.st.threads
  {
    match move
    case Other(step) => m.(st := Next(m.st, step))
    case SleepFor(n) => Machine(Sleep(m.st), Timers.After(m.world, Timers.Sleep(m.st.cur, n)))
    case Tick(order) => Machine(WakeAll(m.st, order), Timers.After(m.world, Timers.Tick))
  }

  // ----- steps that put nobody to sleep and wake nobody up ---------------------------------------------------

  ghost predicate Undisturbed(st: State, w: State) {
    w.idle == st.idle && forall t :: Dozes(w, t) <==> Dozes(st, t)
  }

  lemma UndisturbedTrans(st: State, u: State, w: State)
    requires Undisturbed(st, u) && Undisturbed(u, w)
    ensures Undisturbed(st, w)
  {
  }

  /** Only thread T changes, and it is not asleep before or after. */
  lemma OneAwake(st: State, w: State, t: Tid)
    requires w.idle == st.idle && !Dozes(st, t) && !Dozes(w, t)
    requires forall u :: u != t ==> (u in w.threads <==> u in st.threads)
    requires forall u :: u != t && u in st.threads ==> w.threads[u].status == st.threads[u].status && w.threads[u].phase == st.threads[u].phase
    ensures Undisturbed(st, w)
  {
  }

  lemma DispatchAwake(st: State)
    requires st.idle in st.threads && Known(st.ready, st.threads) && forall t :: t in st.ready ==> st.threads[t].status == Ready
    ensures Undisturbed(st, Dispatch(st))
  {
    OneAwake(st, Dispatch(st), Dispatch(st).cur);
  }

  lemma ReadyAre(st: State)
    requires Inv(st)
    ensures forall t :: t in st.ready ==> t in st.threads && st.threads[t].status == Ready
    ensures st.cur in st.threads && st.threads[st.cur].status == Running
  {
    hide WaitOk, LockOk, DonorOk, SortedQueue;
  }

  lemma EnqueueMembers(st: State, t: Tid)
    requires t in st.threads && Known(st.ready, st.threads) && forall u :: u in st.ready ==> st.threads[u].status == Ready
    ensures var w := Enqueue(st, t); forall u :: u in w.ready ==> u in w.threads && w.threads[u].status == Ready
  {
  }

  lemma YieldAwake(st: State)
    requires Closed(st) && st.threads[st.cur].status != Blocked && forall t :: t in st.ready ==> st.threads[t].status == Ready
    ensures Undisturbed(st, Yield(st))
  {
    hide Closed, Dispatch, Enqueue, Undisturbed;
    KnownReady(st);
    if st.cur == st.idle {
      var w := SetCurrent(st, st.threads[st.cur].(status := Ready));
      OneAwake(st, w, st.cur);
      DispatchAwake(w);
      UndisturbedTrans(st, w, Dispatch(w));
    } else {
      var w := Enqueue(st, st.cur);
      EnqueueTouches(st, st.cur);
      EnqueueClosed(st, st.cur);
      KnownReady(w);
      EnqueueMembers(st, st.cur);
      OneAwake(st, w, st.cur);
      DispatchAwake(w);
      UndisturbedTrans(st, w, Dispatch(w));
    }
  }

  lemma {:induction false} PropagateAwake(st: State, l: Option<nat>, p: int, fuel: nat)
    requires Closed(st) && forall t :: t in st.ready ==> st.threads[t].status == Ready
    ensures var w := Propagate(st, l, p, fuel);
      && Undisturbed(st, w) && w.cur == st.cur && w.threads.Keys == st.threads.Keys && w.semas == st.semas
      && (forall t :: t in st.threads ==> w.threads[t].status == st.threads[t].status && w.threads[t].phase == st.threads[t].phase)
      && (forall t :: t in w.ready ==> t in w.threads && w.threads[t].status == Ready)
    decreases fuel
  {
    hide Closed, Raise, InsertOrdered;
    KnownReady(st);
    if l.Some? && fuel > 0 && l.value in st.holder {
      HolderKnown(st, l.value);
      var h := st.holder[l.value];
      if st.threads[h].priority < p {
        RaiseClosed(st, h, p);
        RaiseTouches(st, h, p);
        RaiseMembers(st, h, p);
        PropagateAwake(Raise(st, h, p), st.threads[h].blocking, p, fuel - 1);
      }
    }
  }

  lemma RaiseMembers(st: State, h: Tid, p: int)
    requires h in st.threads && Known(st.ready, st.threads) && forall t :: t in st.ready ==> st.threads[t].status == Ready
    ensures var w := Raise(st, h, p); forall t :: t in w.ready ==> t in w.threads && w.threads[t].status == Ready
  {
    hide InsertOrdered, Without;
  }

  lemma BlockAwake(st: State, s: nat)
    requires Closed(st) && s in st.semas && Waits(st.threads[st.cur].phase) && forall t :: t in st.ready ==> st.threads[t].status == Ready
    requires st.cur !in st.ready
    ensures var w := BlockOn(st, s);
      && Undisturbed(st, w) && w.idle in w.threads && Known(w.ready, w.threads) && forall t :: t in w.ready ==> w.threads[t].status == Ready
  {
    hide InsertOrdered;
  }

  lemma AttemptAwake(st: State, s: nat)
    requires Closed(st) && s in st.semas && Waits(st.threads[st.cur].phase) && st.threads[st.cur].status != Blocked
    requires st.cur !in st.ready && forall t :: t in st.ready ==> st.threads[t].status == Ready
    ensures Undisturbed(st, Attempt(st, s))
  {
    hide Closed, BlockOn, Dispatch, Undisturbed;
    KnownReady(st);
    if st.semas[s].value == 0 {
      BlockAwake(st, s);
      DispatchAwake(BlockOn(st, s));
      UndisturbedTrans(st, BlockOn(st, s), Dispatch(BlockOn(st, s)));
    } else {
      OneAwake(st, Proceed(st, s), st.cur);
    }
  }

  lemma DownAwake(st: State, s: nat)
    requires Inv(st) && s in st.semas && st.threads[st.cur].phase == Free
    ensures Undisturbed(st, Down(st, s))
  {
    hide Base, Closed, Attempt, Undisturbed;
    InvClosed(st);
    ReadyAre(st);
    CurrentLoose(st);
    KnownDonors(st);
    var asked := SetCurrent(st, st.threads[st.cur].(phase := Downing(s)));
    SetCurrentClosed(st, st.threads[st.cur].(phase := Downing(s)));
    OneAwake(st, asked, st.cur);
    AttemptAwake(asked, s);
    UndisturbedTrans(st, asked, Attempt(asked, s));
  }

  lemma RegisterAwake(st: State, l: nat)
    requires Closed(st) && st.threads[st.cur].status == Running
    ensures Undisturbed(st, Register(st, l)) && Register(st, l).threads[st.cur].status == Running
    ensures forall t :: t in st.ready && st.threads[t].status == Ready ==> Register(st, l).threads[t].status == Ready
  {
    hide InsertOrdered;
  }

  lemma AcquireAwake(st: State, l: nat)
    requires Inv(st) && MayAcquire(st, l)
    ensures l in st.semas && Closed(st) && Undisturbed(st, Acquire(st, l))
  {
    hide Base, Closed, Attempt, Register, Propagate, Undisturbed;
    InvClosed(st);
    ReadyAre(st);
    CurrentLoose(st);
    LockKnown(st, l);
    RegisterClosed(st, l);
    RegisterKeeps(st, l);
    RegisterAwake(st, l);
    var asked, p := Register(st, l), st.threads[st.cur].priority;
    if l in st.holder {
      var w := Propagate(asked, Some(l), p, DONATION_DEPTH);
      PropagateClosed(asked, Some(l), p, DONATION_DEPTH);
      PropagateAwake(asked, Some(l), p, DONATION_DEPTH);
      AttemptAwake(w, l);
      UndisturbedTrans(st, asked, w);
      UndisturbedTrans(st, w, Attempt(w, l));
    } else {
      AttemptAwake(asked, l);
      UndisturbedTrans(st, asked, Attempt(asked, l));
    }
  }

  lemma ResumeAwake(st: State)
    requires Inv(st) && Waits(st.threads[st.cur].phase) && st.threads[st.cur].phase.s in st.semas
    ensures Undisturbed(st, Resume(st))
  {
    hide Base, Closed, Attempt, Undisturbed;
    InvClosed(st);
    ReadyAre(st);
    CurrentLoose(st);
    AttemptAwake(st, st.threads[st.cur].phase.s);
  }

  /** A waiter is taken off its list and made ready. */
  lemma WokenAwake(st: State, s: nat)
    requires Inv(st) && s in st.semas && st.semas[s].waiters != [] && Known(st.semas[s].waiters, st.threads)
    ensures var off, m := Unlisted(st, s), FirstMax(st.semas[s].waiters, st.threads);
      && Known(off.ready, off.threads) && m in off.threads && Undisturbed(st, Enqueue(off, m))
      && Enqueue(off, m).cur == st.cur && st.cur in Enqueue(off, m).threads && Enqueue(off, m).threads[st.cur].status == Running
      && (forall t :: t in Enqueue(off, m).ready ==> t in Enqueue(off, m).threads && Enqueue(off, m).threads[t].status == Ready)
  {
    hide LockOk, DonorOk, FirstMax, Without, SortedQueue, Enqueue;
    var off, m := Unlisted(st, s), FirstMax(st.semas[s].waiters, st.threads);
    EnqueueTouches(off, m);
    EnqueueCur(off, m);
    EnqueueMembers(off, m);
    OneAwake(st, Enqueue(off, m), m);
  }

  lemma UpAwake(st: State, s: nat, interrupt: bool)
    requires Inv(st) && MayPost(st, s, interrupt)
    ensures s in st.semas && Closed(st) && Undisturbed(st, Up(st, s, interrupt))
  {
    hide Base, Closed, FirstMax, Yield, Unlisted, Enqueue, Undisturbed;
    InvClosed(st);
    ReadyAre(st);
    HolderKeys(st);
    PostInv(st, s);
    var posted := Post(st, s);
    InvClosed(posted);
    OneAwake(st, posted, st.cur);
    if posted.semas[s].waiters != [] {
      WaitersKnown(posted, s);
      WokenAwake(posted, s);
      UnlistedKept(posted, s);
      var off, m := Unlisted(posted, s), FirstMax(posted.semas[s].waiters, posted.threads);
      EnqueueClosed(off, m);
      var woken := Enqueue(off, m);
      YieldAwake(woken);
      UndisturbedTrans(st, posted, woken);
      UndisturbedTrans(st, woken, Yield(woken));
    }
  }

  lemma FreedAwake(st: State)
    requires Inv(st)
    ensures var w := SetCurrent(st, st.threads[st.cur].(phase := Free)); Closed(w) && Undisturbed(st, w) && Undisturbed(st, Yield(w))
  {
    hide Base, Closed, Yield, Undisturbed;
    InvClosed(st);
    ReadyAre(st);
    CurrentLoose(st);
    KnownDonors(st);
    var w := SetCurrent(st, st.threads[st.cur].(phase := Free));
    SetCurrentClosed(st, st.threads[st.cur].(phase := Free));
    OneAwake(st, w, st.cur);
    YieldAwake(w);
    UndisturbedTrans(st, w, Yield(w));
  }

  lemma CreateAwake(st: State, t: Tid, priority: int)
    requires Inv(st) && t !in st.threads
    ensures Closed(st) && Undisturbed(st, Create(st, t, priority))
  {
    hide Base, Closed, Enqueue, Undisturbed;
    InvClosed(st);
    ReadyAre(st);
    var w := New(st, t, priority);
    NewClosed(st, t, priority);
    KnownReady(w);
    EnqueueTouches(w, t);
    EnqueueCur(w, t);
    OneAwake(st, Enqueue(w, t), t);
    OneAwake(Enqueue(w, t), Create(st, t, priority), st.cur);
    UndisturbedTrans(st, Enqueue(w, t), Create(st, t, priority));
  }

  lemma ExitAwake(st: State)
    requires Inv(st) && MayExit(st) && st.cur !in st.ready
    ensures Undisturbed(st, Exit(st))
  {
    hide Base, Closed, Dispatch, Undisturbed;
    ReadyAre(st);
    GoneClosed(st);
    KnownReady(Gone(st));
    OneAwake(st, Gone(st), st.cur);
    DispatchAwake(Gone(st));
    UndisturbedTrans(st, Gone(st), Dispatch(Gone(st)));
  }

  lemma IdleAwake(st: State)
    requires Inv(st) && st.cur == st.idle
    ensures Undisturbed(st, Sleep(st))
  {
    hide Base, Closed, Dispatch, Undisturbed;
    InvClosed(st);
    ReadyAre(st);
    CurrentLoose(st);
    KnownDonors(st);
    var w := SetCurrent(st, st.threads[st.cur].(status := Blocked));
    SetCurrentClosed(st, st.threads[st.cur].(status := Blocked));
    KnownReady(w);
    OneAwake(st, w, st.cur);
    DispatchAwake(w);
    UndisturbedTrans(st, w, Dispatch(w));
  }

  /** Steps in which only the running thread changes, and runs on. */
  lemma OwnAwake(st: State, step: Step)
    requires Inv(st) && Enabled(st, step)
    requires step.TryStep? || step.ClaimStep? || step.ReleaseStep? || step.BaseStep? || step.UpdateStep? || step.PassStep? || step.CompareStep?
    ensures Undisturbed(st, Next(st, step))
  {
    hide Base, Closed, NotFor, Effective, PassOn, Undisturbed;
    InvClosed(st);
    ReadyAre(st);
    KnownDonors(st);
    if step.PassStep? {
      PassIs(st);
    }
    if step.TryStep? {
      LockKnown(st, step.l);
    }
    OneAwake(st, Next(st, step), st.cur);
  }

  lemma StepAwake(st: State, step: Step)
    requires Inv(st) && Enabled(st, step) && !step.WakeStep? && (step.SleepStep? ==> st.cur == st.idle)
    ensures Undisturbed(st, Next(st, step))
  {
    hide Inv, Closed, Undisturbed, Yield, Down, Acquire, Resume, TryAcquire, Claim, Release, Up, SetBase, Update, PassOn, Compare, Sleep,
      Create, Exit, Attempt;
    InvClosed(st);
    match step
    case Preempt => ReadyAre(st); YieldAwake(st);
    case DownStep(s) => DownAwake(st, s);
    case AcquireStep(l) => AcquireAwake(st, l);
    case ResumeStep => ResumeAwake(st);
    case UpStep(s, interrupt) => UpAwake(st, s, interrupt);
    case YieldStep => FreedAwake(st);
    case StartStep(higher) => FreedAwake(st);
    case SleepStep => IdleAwake(st);
    case CreateStep(t, priority) => CreateAwake(st, t, priority);
    case ExitStep => ExitAwake(st);
    case _ => OwnAwake(st, step);
  }

  // ----- going to sleep and waking up ---------------------------------------------------------------------------

  lemma SleepDozes(st: State)
    requires Inv(st) && st.cur != st.idle && st.threads[st.cur].phase == Free
    ensures Closed(st) && Sleep(st).idle == st.idle && forall t :: Dozes(Sleep(st), t) <==> Dozes(st, t) || t == st.cur
  {
    hide Base, Closed, Dispatch;
    InvClosed(st);
    ReadyAre(st);
    CurrentLoose(st);
    KnownDonors(st);
    var w := SetCurrent(st, st.threads[st.cur].(status := Blocked));
    SetCurrentClosed(st, st.threads[st.cur].(status := Blocked));
    KnownReady(w);
    DispatchAwake(w);
  }

  lemma {:induction false} WakeAllDozes(st: State, order: seq<Tid>)
    requires Inv(st) && Closed(st) && Distinct(order) && forall t :: t in order ==> t in st.threads && Dozes(st, t)
    ensures Inv(WakeAll(st, order)) && WakeAll(st, order).idle == st.idle
    ensures forall t :: Dozes(WakeAll(st, order), t) <==> Dozes(st, t) && t !in order
    decreases order
  {
    hide Base, Closed, Enqueue;
    if order != [] {
      var t := order[0];
      assert t in order && Dozes(st, t);
      InvClosed(st);
      KnownReady(st);
      EnqueueClosed(st, t);
      WakeInv(st, t);
      EnqueueTouches(st, t);
      assert forall u :: u in order[1..] ==> u in order && u != t;
      WakeAllDozes(Enqueue(st, t), order[1..]);
      assert order == [t] + order[1..];
    }
  }

  lemma DueKnown(m: Machine)
    requires JointOk(m)
    ensures Closed(m.st) && forall t :: t in m.world.due ==> t in m.st.threads
  {
    hide ReadyOk, WaitOk, LockOk, DonorOk;
  }

  /** Every move keeps the scheduler and the timer in agreement. */
  lemma MoveJoint(m: Machine, move: Move)
    requires JointOk(m) && Possible(m, move)
    ensures (forall t :: t in m.world.due ==> t in m.st.threads) && JointOk(Moved(m, move))
  {
    hide Inv, Closed, Enabled, Next, Sleep, WakeAll;
    DueKnown(m);
    match move
    case Other(step) =>
      StepInv(m.st, step);
      StepAwake(m.st, step);
    case SleepFor(n) =>
      SleepInv(m.st);
      SleepDozes(m.st);
    case Tick(order) =>
      WakeAllDozes(m.st, order);
  }

  // ----- runs ----------------------------------------------------------------------------------------------------

  ghost predicate CanMove(m: Machine, moves: seq<Move>)
    requires JointOk(m)
    decreases moves
  {
    moves == [] || (Possible(m, moves[0]) && (MoveJoint(m, moves[0]); CanMove(Moved(m, moves[0]), moves[1..])))
  }

  ghost function MovedOn(m: Machine, moves: seq<Move>): Machine
    requires JointOk(m) && CanMove(m, moves)
    decreases moves
  {
    if moves == [] then m
    else
      MoveJoint(m, moves[0]);
      MovedOn(Moved(m, moves[0]), moves[1..])
  }

  /** T goes to sleep again at some point of the run. */
  ghost predicate SleepsAgain(m: Machine, moves: seq<Move>, t: Tid)
    requires JointOk(m) && CanMove(m, moves)
    decreases moves
  {
    moves != [] && ((moves[0].SleepFor? && m.st.cur == t) || (MoveJoint(m, moves[0]); SleepsAgain(Moved(m, moves[0]), moves[1..], t)))
  }

  /** One move: a sleeping thread sleeps on, unless it is the tick it is due at. */
  lemma OneMove(m: Machine, move: Move, t: Tid)
    requires JointOk(m) && Possible(m, move) && forall u :: u in m.world.due ==> u in m.st.threads
    ensures var w := Moved(m, move);
      && w.world.now == m.world.now + (if move.Tick? then 1 else 0)
      && (t in m.world.due && w.world.now < m.world.due[t] ==> t in w.world.due && w.world.due[t] == m.world.due[t])
      && (t in m.world.due && w.world.now >= m.world.due[t] ==> t !in w.world.due)
      && (t !in m.world.due && !(move.SleepFor? && m.st.cur == t) ==> t !in w.world.due)
  {
    hide Inv, Closed, Enabled, Next, Sleep, WakeAll;
    if move.SleepFor? && t in m.world.due {
      assert Dozes(m.st, t);
      RunningAwake(m.st);
    }
  }

  lemma RunningAwake(st: State)
    requires Inv(st)
    ensures !Dozes(st, st.cur)
  {
    hide Base;
  }

  lemma {:induction false} AwakeStays(m: Machine, moves: seq<Move>, t: Tid)
    requires JointOk(m) && CanMove(m, moves) && t !in m.world.due && !SleepsAgain(m, moves, t)
    ensures !Dozes(MovedOn(m, moves).st, t)
    decreases moves
  {
    hide Inv, Dozes, Possible, Moved;
    if moves != [] {
      MoveJoint(m, moves[0]);
      OneMove(m, moves[0], t);
      AwakeStays(Moved(m, moves[0]), moves[1..], t);
    }
  }

  /** Over every run of the machine a sleeping thread is asleep exactly while its tick is still to come, unless it
      goes to sleep again. */
  lemma {:induction false} AsleepUntilDue(m: Machine, moves: seq<Move>, t: Tid)
    requires JointOk(m) && CanMove(m, moves) && t in m.world.due
    ensures JointOk(MovedOn(m, moves))
    ensures MovedOn(m, moves).world.now < m.world.due[t] ==> Dozes(MovedOn(m, moves).st, t)
    ensures MovedOn(m, moves).world.now >= m.world.due[t] && !SleepsAgain(m, moves, t) ==> !Dozes(MovedOn(m, moves).st, t)
    decreases moves
  {
    hide Inv, Possible, Moved, Dozes;
    if moves != [] {
      MoveJoint(m, moves[0]);
      var w := Moved(m, moves[0]);
      OneMove(m, moves[0], t);
      if t in w.world.due {
        AsleepUntilDue(w, moves[1..], t);
      } else {
        LaterTicks(w, moves[1..]);
        if !SleepsAgain(m, moves, t) {
          AwakeStays(w, moves[1..], t);
        }
      }
    }
  }

  /** How many of the moves are timer interrupts. */
  function Ticks(moves: seq<Move>): nat {
    if moves == [] then 0 else (if moves[0].Tick? then 1 else 0) + Ticks(moves[1..])
  }

  lemma {:induction false} LaterTicks(m: Machine, moves: seq<Move>)
    requires JointOk(m) && CanMove(m, moves)
    ensures JointOk(MovedOn(m, moves)) && MovedOn(m, moves).world.now == m.world.now + Ticks(moves)
    decreases moves
  {
    hide Inv, Possible, Moved, Dozes;
    if moves != [] {
      MoveJoint(m, moves[0]);
      OneMove(m, moves[0], 0);
      LaterTicks(Moved(m, moves[0]), moves[1..]);
    }
  }

  /** The thread that goes to sleep for N ticks is asleep while there have been fewer than N timer interrupts since,
      or none if N is less than one. After that it is awake, until it goes to sleep again. */
  lemma SleepsForTicks(m: Machine, n: int, moves: seq<Move>)
    requires JointOk(m) && Possible(m, SleepFor(n))
    ensures (forall t :: t in m.world.due ==> t in m.st.threads) && JointOk(Moved(m, SleepFor(n)))
    ensures var w := Moved(m, SleepFor(n)); var ticks := if n < 1 then 1 else n; CanMove(w, moves) ==>
      && (Ticks(moves) < ticks ==> Dozes(MovedOn(w, moves).st, m.st.cur))
      && (Ticks(moves) >= ticks && !SleepsAgain(w, moves, m.st.cur) ==> !Dozes(MovedOn(w, moves).st, m.st.cur))
  {
    hide Inv, Closed, Dozes, Sleep, CanMove, MovedOn, SleepsAgain;
    MoveJoint(m, SleepFor(n));
    var w := Moved(m, SleepFor(n));
    if CanMove(w, moves) {
      AsleepUntilDue(w, moves, m.st.cur);
      LaterTicks(w, moves);
    }
  }

  /** The machine starts with nobody asleep. */
  lemma StartJoint(st: State, now: int)
    requires Initial(st)
    ensures JointOk(Machine(st, Timers.World(now, map[])))
  {
    hide Inv;
    InitialInv(st);
  }
}
