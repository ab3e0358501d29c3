/** Whole runs of the scheduler: what holds in every reachable state. */
module SchedulerRuns {
  import opened Options
  import opened Scheduling

  /** The stretches of kernel code that run without interruption. */
  datatype Step =
    | Preempt
    | DownStep(s: nat)
    | AcquireStep(l: nat)
    | ResumeStep
    | TryStep(l: nat)
    | ClaimStep
    | ReleaseStep(l: nat)
    | UpStep(s: nat, interrupt: bool)
    | BaseStep(base: int)
    | UpdateStep
    | PassStep
    | CompareStep
    | YieldStep
    | SleepStep
    | WakeStep(t: Tid)
    | CreateStep(t: Tid, priority: int)
    | StartStep(higher: bool)
    | ExitStep

  /** What the code asserts or relies on when it is entered. */
  ghost predicate Enabled(st: State, step: Step) {
    && Closed(st)
    && var me := st.threads[st.cur];
    match step
    case Preempt => !Waits(me.phase)
    case DownStep(s) => st.cur != st.idle && me.phase == Free && s in st.semas && s !in st.locks
    case AcquireStep(l) => MayAcquire(st, l)
    case ResumeStep => Waits(me.phase) && me.phase.s in st.semas
    case TryStep(l) => MayAcquire(st, l)
    case ClaimStep => me.phase.Claiming?
    case ReleaseStep(l) => me.phase == Free && l in st.holder && st.holder[l] == st.cur
    case UpStep(s, interrupt) => MayPost(st, s, interrupt)
    case BaseStep(_) => st.cur != st.idle && me.phase == Free
    case UpdateStep => me.phase == Setting
    case PassStep => me.phase == Passing
    case CompareStep => me.phase == Comparing
    case YieldStep => me.phase == Yielding
    case SleepStep => me.phase == Free
    case WakeStep(t) =>
      t in st.threads && t != st.idle && st.threads[t].status == Blocked && st.threads[t].phase == Free && !Waits(me.phase)
    case CreateStep(t, _) => t !in st.threads && st.cur != st.idle && me.phase == Free
    case StartStep(higher) =>
      me.phase.Starting? && (me.phase.t in st.threads ==> (higher <==> st.threads[me.phase.t].priority > me.priority))
    case ExitStep => MayExit(st) && st.cur !in st.ready
  }

  ghost function Next(st: State, step: Step): State
    requires Enabled(st, step)
  {
    match step
    case Preempt => Yield(st)
    case DownStep(s) => Down(st, s)
    case AcquireStep(l) => Acquire(st, l)
    case ResumeStep => Resume(st)
    case TryStep(l) => TryAcquire(st, l)
    case ClaimStep => Claim(st)
    case ReleaseStep(l) => Release(st, l)
    case UpStep(s, interrupt) => Up(st, s, interrupt)
    case BaseStep(base) => SetBase(st, base)
    case UpdateStep => Update(st)
    case PassStep => PassOn(st)
    case CompareStep => Compare(st)
    case YieldStep => YieldOwn(st)
    case SleepStep => Sleep(st)
    case WakeStep(t) => Enqueue(st, t)
    case CreateStep(t, priority) => Create(st, t, priority)
    case StartStep(higher) => Start(st, higher)
    case ExitStep => Exit(st)
  }

  lemma StepInv(st: State, step: Step)
    requires Inv(st) && Enabled(st, step)
    ensures Inv(Next(st, step))
  {
    hide Inv, Closed, Yield, Down, Acquire, Resume, TryAcquire, Claim, Release, Up, SetBase, Update, PassOn, Compare, YieldOwn, Sleep,
      Enqueue, Create, Start, Exit;
    match step
    case Preempt => YieldInv(st);
    case DownStep(s) => DownInv(st, s);
    case AcquireStep(l) => AcquireInv(st, l);
    case ResumeStep => ResumeInv(st);
    case TryStep(l) => TryInv(st, l);
    case ClaimStep => ClaimInv(st);
    case ReleaseStep(l) => ReleaseInv(st, l);
    case UpStep(s, interrupt) => UpInv(st, s, interrupt);
    case BaseStep(base) => SetBaseInv(st, base);
    case UpdateStep => UpdateInv(st);
    case PassStep => PassInv(st);
    case CompareStep => CompareInv(st);
    case YieldStep => YieldOwnInv(st);
    case SleepStep => SleepInv(st);
    case WakeStep(t) => WakeInv(st, t);
    case CreateStep(t, priority) => CreateInv(st, t, priority);
    case StartStep(higher) => StartInv(st, higher);
    case ExitStep => ExitInv(st);
  }

  // ----- priorities --------------------------------------------------------------------------------

  /** Priorities, base priorities and donor lists are as before, and who is setting its priority. */
  ghost predicate Kept(st: State, w: State) {
    && w.threads.Keys == st.threads.Keys
    && (forall t :: t in st.threads ==>
          && w.threads[t].priority == st.threads[t].priority && w.threads[t].base == st.threads[t].base
          && w.threads[t].donors == st.threads[t].donors && (w.threads[t].phase == Setting <==> st.threads[t].phase == Setting))
  }

  lemma EnqueueKept(st: State, t: Tid)
    requires Closed(st) && t in st.threads
    ensures Kept(st, Enqueue(st, t))
  {
    hide Closed, InsertOrdered;
    KnownReady(st);
  }

  lemma YieldKept(st: State)
    requires Closed(st)
    ensures Kept(st, Yield(st))
  {
    hide InsertOrdered, Closed;
    KnownReady(st);
  }

  lemma KeptTrans(st: State, u: State, w: State)
    requires Kept(st, u) && Kept(u, w)
    ensures Kept(st, w)
  {
  }

  lemma PostKept(st: State, s: nat)
    requires Closed(st) && s in st.semas
    ensures Closed(Post(st, s)) && Kept(st, Post(st, s)) && s in Post(st, s).semas
  {
  }

  lemma UnlistedKept(st: State, s: nat)
    requires Closed(st) && s in st.semas && st.semas[s].waiters != []
    ensures Closed(Unlisted(st, s)) && Kept(st, Unlisted(st, s)) && FirstMax(st.semas[s].waiters, st.threads) in Unlisted(st, s).threads
  {
    hide FirstMax, Without;
  }

  lemma UpKept(st: State, s: nat, interrupt: bool)
    requires Closed(st) && s in st.semas
    ensures Kept(st, Up(st, s, interrupt))
  {
    hide Closed, Kept, Post, Unlisted, Yield, Enqueue, FirstMax;
    KnownReady(st);
    PostKept(st, s);
    var posted := Post(st, s);
    if posted.semas[s].waiters != [] {
      UnlistedKept(posted, s);
      var off, m := Unlisted(posted, s), FirstMax(posted.semas[s].waiters, posted.threads);
      KnownReady(off);
      EnqueueKept(off, m);
      EnqueueClosed(off, m);
      YieldKept(Enqueue(off, m));
      KeptTrans(st, posted, off);
      KeptTrans(st, off, Enqueue(off, m));
      KeptTrans(st, Enqueue(off, m), Yield(Enqueue(off, m)));
    }
  }

  lemma KeptPriority(st: State, w: State)
    requires Closed(st) && Closed(w) && Kept(st, w) && PriorityOk(st, None)
    ensures PriorityOk(w, None)
  {
    hide Closed;
    PriorityFrame(st, w, None);
  }

  lemma AttemptKept(st: State, s: nat)
    requires Closed(st) && s in st.semas && st.threads[st.cur].phase != Setting
    ensures Kept(st, Attempt(st, s))
  {
    hide Attempt, Closed;
    AttemptThreads(st, s);
  }

  /** A release leaves the releaser with exactly the highest of its own priority and those of its
      remaining donors, and keeps everybody's due. */
  lemma ReleasePriority(st: State, l: nat)
    requires Inv(st) && PriorityOk(st, None) && l in st.holder && st.holder[l] == st.cur && Closed(Release(st, l))
    ensures PriorityOk(Release(st, l), None)
    ensures var me := Release(st, l).threads[st.cur];
      && (forall d :: d in me.donors <==> d in st.threads[st.cur].donors && st.threads[d].blocking != Some(l))
      && me.priority >= me.base && (forall d :: d in me.donors ==> me.priority >= st.threads[d].priority)
      && (me.priority == me.base || exists d :: d in me.donors && st.threads[d].priority == me.priority)
  {
    hide ReadyOk, WaitOk, LockOk, NotFor, Effective;
    CurrentLoose(st);
    RaisedCurrent(st, Release(st, l));
  }

  /** Changing the current thread to a priority that covers its base and its donors settles all. */
  lemma RaisedCurrent(st: State, w: State)
    requires Closed(st) && Closed(w) && PriorityOk(st, None) && st.cur in w.threads && w.threads.Keys == st.threads.Keys
    requires forall t :: t in st.threads && t != st.cur ==> w.threads[t] == st.threads[t]
    requires forall t :: t in st.threads ==> st.cur !in st.threads[t].donors
    requires forall d :: d in w.threads[st.cur].donors ==> d in st.threads[st.cur].donors && w.threads[st.cur].priority >= st.threads[d].priority
    requires w.threads[st.cur].priority >= w.threads[st.cur].base
    ensures PriorityOk(w, None)
  {
  }

  /** Inside thread_set_priority the running thread may have less than its base priority, and does exactly
      if the new one is higher; the update makes up for it. */
  lemma SettingBelow(st: State, base: int)
    requires Inv(st) && PriorityOk(st, None) && st.threads[st.cur].phase == Free && st.cur != st.idle
    ensures var w := SetBase(st, base);
      && Inv(w) && PriorityOk(w, None)
      && (w.threads[w.cur].priority < w.threads[w.cur].base <==> st.threads[st.cur].priority < base)
      && Closed(Update(w)) && PriorityOk(Update(w), None) && Update(w).threads[w.cur].priority >= base
  {
    hide ReadyOk, WaitOk, LockOk, DonorOk, Effective;
    SetBaseInv(st, base);
    UpdateInv(SetBase(st, base));
    UpdatePriorities(SetBase(st, base));
  }

  lemma UpdatePriorities(st: State)
    requires Inv(st) && PriorityOk(st, None) && st.threads[st.cur].phase == Setting && Closed(Update(st))
    ensures PriorityOk(Update(st), None)
  {
    hide ReadyOk, WaitOk, LockOk, Effective;
    CurrentLoose(st);
    RaisedCurrent(st, Update(st));
  }

  lemma PassKept(st: State)
    requires Inv(st) && st.threads[st.cur].phase == Passing
    ensures Kept(st, PassOn(st))
  {
    hide ReadyOk, WaitOk, LockOk, DonorOk, PassOn;
    PassIs(st);
  }

  lemma CompareKept(st: State)
    requires Closed(st) && st.threads[st.cur].phase == Comparing
    ensures Kept(st, Compare(st))
  {
  }

  lemma YieldOwnKept(st: State)
    requires Closed(st) && st.threads[st.cur].phase == Yielding
    ensures Kept(st, YieldOwn(st))
  {
    hide Yield;
    var w := SetCurrent(st, st.threads[st.cur].(phase := Free));
    SetCurrentClosed(st, st.threads[st.cur].(phase := Free));
    YieldKept(w);
  }

  lemma NewPriority(st: State, t: Tid, priority: int)
    requires Closed(st) && PriorityOk(st, None) && t !in st.threads && Closed(New(st, t, priority))
    ensures PriorityOk(New(st, t, priority), None)
  {
  }

  lemma CreatePriority(st: State, t: Tid, priority: int)
    requires Closed(st) && PriorityOk(st, None) && t !in st.threads && Closed(Create(st, t, priority)) && st.threads[st.cur].phase == Free
    ensures PriorityOk(Create(st, t, priority), None)
  {
    hide Closed, Kept, PriorityOk, Enqueue;
    NewClosed(st, t, priority);
    var w := New(st, t, priority);
    NewPriority(st, t, priority);
    KnownReady(st);
    KnownReady(w);
    EnqueueClosed(w, t);
    EnqueueKept(w, t);
    EnqueueCur(w, t);
    KeptPriority(w, Enqueue(w, t));
    StartingKept(w, t);
    KeptPriority(Enqueue(w, t), Create(st, t, priority));
  }

  lemma StartingKept(st: State, t: Tid)
    requires Closed(st) && t in st.threads && Closed(Enqueue(st, t)) && st.threads[st.cur].phase == Free
    ensures var w := Enqueue(st, t); w.cur in w.threads && Kept(w, SetCurrent(w, w.threads[w.cur].(phase := Starting(t))))
  {
    hide InsertOrdered;
  }

  lemma StartKept(st: State, higher: bool)
    requires Closed(st) && st.threads[st.cur].phase.Starting?
    ensures Kept(st, Start(st, higher))
  {
    hide Yield;
    var w := SetCurrent(st, st.threads[st.cur].(phase := Free));
    SetCurrentClosed(st, st.threads[st.cur].(phase := Free));
    YieldKept(w);
  }

  lemma ExitPriority(st: State)
    requires Inv(st) && PriorityOk(st, None) && MayExit(st) && st.cur !in st.ready && Closed(Exit(st))
    ensures PriorityOk(Exit(st), None)
  {
    hide ReadyOk, WaitOk, LockOk, DonorOk;
  }

  /** Steps that change no priority and no donor list. */
  predicate Quiet(step: Step) {
    || step.Preempt? || step.DownStep? || step.ResumeStep? || step.TryStep? || step.ClaimStep? || step.UpStep? || step.SleepStep?
    || step.WakeStep? || step.StartStep? || step.PassStep? || step.CompareStep? || step.YieldStep?
  }

  lemma DownKept(st: State, s: nat)
    requires Closed(st) && s in st.semas && st.threads[st.cur].phase == Free
    ensures Kept(st, Down(st, s))
  {
    hide Attempt;
    AttemptKept(SetCurrent(st, st.threads[st.cur].(phase := Downing(s))), s);
  }

  lemma SleepKept(st: State)
    requires Closed(st)
    ensures Kept(st, Sleep(st))
  {
  }

  lemma LockStepsKept(st: State, l: nat)
    requires Closed(st)
    ensures l in st.semas && st.threads[st.cur].phase == Free ==> Kept(st, TryAcquire(st, l))
    ensures st.threads[st.cur].phase.Claiming? ==> Kept(st, Claim(st))
  {
    hide Closed;
    KnownReady(st);
  }

  lemma QuietKept(st: State, step: Step)
    requires Inv(st) && Enabled(st, step) && Quiet(step)
    ensures Kept(st, Next(st, step))
  {
    hide Closed, Base, Kept, Yield, Down, Attempt, TryAcquire, Claim, Up, Sleep, Enqueue, PassOn, Compare, YieldOwn, Start;
    KnownReady(st);
    match step
    case StartStep(higher) => StartKept(st, higher);
    case PassStep => PassKept(st);
    case CompareStep => CompareKept(st);
    case YieldStep => YieldOwnKept(st);
    case Preempt => YieldKept(st);
    case DownStep(s) => DownKept(st, s);
    case ResumeStep => AttemptKept(st, st.threads[st.cur].phase.s);
    case TryStep(l) => LockKnown(st, l); LockStepsKept(st, l);
    case ClaimStep => LockStepsKept(st, 0);
    case UpStep(s, interrupt) => UpKept(st, s, interrupt);
    case SleepStep => SleepKept(st);
    case WakeStep(t) => EnqueueKept(st, t);
  }

  lemma LockKnown(st: State, l: nat)
    requires Closed(st) && l in st.locks
    ensures l in st.semas
  {
  }

  /** The donation reaches everybody it has to: always, except for an acquire whose chain is too long. */
  ghost predicate WithinDepth(st: State, step: Step)
    requires Closed(st)
  {
    step.AcquireStep? && step.l in st.holder ==>
      Suffices(st, st.cur, Chain(st, Some(step.l), st.threads[st.cur].priority, {}), DONATION_DEPTH)
  }

  lemma DonationStep(st: State, step: Step)
    requires Inv(st) && PriorityOk(st, None) && Enabled(st, step) && Inv(Next(st, step))
    ensures PriorityOk(Next(st, step), None) <==> WithinDepth(st, step)
  {
    hide Closed, Base, PriorityOk, Suffices, Chain, Next, Kept;
    NextIs(st, step);
    InvClosed(Next(st, step));
    if Quiet(step) {
      QuietKept(st, step);
      KeptPriority(st, Next(st, step));
    } else {
      match step
      case AcquireStep(l) => AcquireExact(st, l);
      case ReleaseStep(l) => ReleasePriority(st, l);
      case BaseStep(base) => SettingBelow(st, base);
      case UpdateStep => UpdatePriorities(st);
      case CreateStep(t, priority) => CreatePriority(st, t, priority);
      case ExitStep => ExitPriority(st);
    }
  }

  lemma NextIs(st: State, step: Step)
    requires Enabled(st, step)
    ensures step.AcquireStep? ==> Next(st, step) == Acquire(st, step.l)
    ensures step.ReleaseStep? ==> Next(st, step) == Release(st, step.l)
    ensures step.BaseStep? ==> Next(st, step) == SetBase(st, step.base)
    ensures step.UpdateStep? ==> Next(st, step) == Update(st)
    ensures step.CreateStep? ==> Next(st, step) == Create(st, step.t, step.priority)
    ensures step.ExitStep? ==> Next(st, step) == Exit(st)
  {
    hide Acquire, Release, SetBase, Update, Create, Exit, Closed;
  }

  // ----- runs --------------------------------------------------------------------------------------

  /** STEPS can be taken one after the other from ST. */
  ghost predicate CanRun(st: State, steps: seq<Step>)
    decreases steps
  {
    steps == [] || (Enabled(st, steps[0]) && CanRun(Next(st, steps[0]), steps[1..]))
  }

  ghost function Run(st: State, steps: seq<Step>): State
    requires CanRun(st, steps)
    decreases steps
  {
    if steps == [] then st else Run(Next(st, steps[0]), steps[1..])
  }

  lemma {:induction false} RunMore(st: State, steps: seq<Step>, more: seq<Step>)
    requires CanRun(st, steps) && CanRun(Run(st, steps), more)
    ensures CanRun(st, steps + more) && Run(st, steps + more) == Run(Run(st, steps), more)
    decreases steps
  {
    hide Enabled, Next;
    if steps == [] {
      assert steps + more == more;
    } else {
      RunMore(Next(st, steps[0]), steps[1..], more);
      assert (steps + more)[1..] == steps[1..] + more;
    }
  }

  /** Every acquire of the run stays within the donation depth. */
  ghost predicate RunWithinDepth(st: State, steps: seq<Step>)
    requires CanRun(st, steps)
    decreases steps
  {
    steps == [] || (WithinDepth(st, steps[0]) && RunWithinDepth(Next(st, steps[0]), steps[1..]))
  }

  /** The machine after thread_start: the main thread runs, idle does not, and nobody waits. */
  ghost predicate Initial(st: State) {
    && Closed(st) && st.threads.Keys == {st.cur, st.idle} && st.cur != st.idle
    && st.threads[st.cur] == Thread(Running, st.threads[st.cur].base, st.threads[st.cur].base, [], None, Free, 0)
    && st.threads[st.idle].status != Running
    && st.threads[st.idle] == Thread(st.threads[st.idle].status, st.threads[st.idle].base, st.threads[st.idle].base, [], None, Free, 0)
    && st.ready == [] && st.clock > 0 && st.holder == map[]
    && (forall s :: s in st.semas ==> st.semas[s].waiters == [])
    && (forall l :: l in st.locks ==> st.semas[l].value == 1)
  }

  lemma InitialInv(st: State)
    requires Initial(st)
    ensures Inv(st) && PriorityOk(st, None)
  {
    hide ReadyOk, WaitOk, LockOk, DonorOk;
    InitialLists(st);
    InitialLocks(st);
  }

  lemma InitialLists(st: State)
    requires Initial(st)
    ensures ReadyOk(st) && WaitOk(st, None)
  {
  }

  lemma InitialLocks(st: State)
    requires Initial(st)
    ensures LockOk(st) && DonorOk(st, None)
  {
  }

  /** In every reachable state the lists and statuses agree. */
  lemma {:induction false} RunInv(st: State, steps: seq<Step>)
    requires Inv(st) && CanRun(st, steps)
    ensures Inv(Run(st, steps))
    decreases steps
  {
    hide Inv, Enabled, Next;
    if steps != [] {
      StepInv(st, steps[0]);
      RunInv(Next(st, steps[0]), steps[1..]);
    }
  }

  /** In every state reached without outrunning the donation depth, nobody has less priority than a
      thread it keeps waiting and lists as donor. */
  lemma {:induction false} RunDonation(st: State, steps: seq<Step>)
    requires Inv(st) && PriorityOk(st, None) && CanRun(st, steps) && RunWithinDepth(st, steps)
    ensures Inv(Run(st, steps)) && PriorityOk(Run(st, steps), None)
    decreases steps
  {
    hide Inv, Enabled, Next, PriorityOk, WithinDepth;
    InvClosed(st);
    if steps != [] {
      StepInv(st, steps[0]);
      InvClosed(Next(st, steps[0]));
      DonationStep(st, steps[0]);
      RunDonation(Next(st, steps[0]), steps[1..]);
    }
  }

  // ----- consequences -----------------------------------------------------------------------------

  lemma {:induction false} SortedAt(q: seq<Tid>, ts: map<Tid, Thread>, i: nat, j: nat)
    requires Known(q, ts) && SortedQueue(q, ts) && i < j < |q|
    ensures Before(ts[q[i]], ts[q[j]])
  {
    if i > 0 {
      SortedAt(q[1..], ts, i - 1, j - 1);
    } else {
      assert q[j] == q[1..][j - 1];
    }
  }

  /** In every state that satisfies the invariant: the ready list holds exactly the ready threads
      other than idle, once each, by priority and then by time of insertion; no thread is on the
      ready list and on a wait list, or on two wait lists. */
  lemma ListsAgree(st: State)
    requires Inv(st)
    ensures forall t :: t in st.threads && t != st.idle ==> (t in st.ready <==> st.threads[t].status == Ready)
    ensures forall i, j :: 0 <= i < j < |st.ready| ==> st.ready[i] != st.ready[j] && Before(st.threads[st.ready[i]], st.threads[st.ready[j]])
    ensures forall t, s :: t in st.ready && s in st.semas ==> t !in st.semas[s].waiters
    ensures forall t, s, z :: s in st.semas && z in st.semas && t in st.semas[s].waiters && t in st.semas[z].waiters ==> s == z
  {
    hide LockOk, DonorOk, SortedQueue;
    forall i, j | 0 <= i < j < |st.ready|
      ensures st.ready[i] != st.ready[j] && Before(st.threads[st.ready[i]], st.threads[st.ready[j]])
    {
      SortedAt(st.ready, st.threads, i, j);
    }
  }

  lemma YieldHolders(st: State)
    requires Closed(st)
    ensures Yield(st).holder == st.holder
  {
    hide Closed, InsertOrdered;
    KnownReady(st);
  }

  lemma UpHolders(st: State, s: nat, interrupt: bool)
    requires Closed(st) && s in st.semas
    ensures Up(st, s, interrupt).holder == st.holder
  {
    hide Closed, Yield, FirstMax, Without, InsertOrdered;
    KnownReady(st);
    PostKept(st, s);
    var posted := Post(st, s);
    if posted.semas[s].waiters != [] {
      UnlistedKept(posted, s);
      var off, m := Unlisted(posted, s), FirstMax(posted.semas[s].waiters, posted.threads);
      KnownReady(off);
      EnqueueClosed(off, m);
      YieldHolders(Enqueue(off, m));
    }
  }

  lemma OwnHolders(st: State)
    requires Closed(st)
    ensures PassOn(st).holder == st.holder && YieldOwn(st).holder == st.holder
  {
    hide Propagate, Yield;
    var me := st.threads[st.cur];
    PropagateClosed(st, me.blocking, me.priority, DONATION_DEPTH);
    SetCurrentClosed(st, me.(phase := Free));
    YieldHolders(SetCurrent(st, me.(phase := Free)));
  }

  lemma CreateHolders(st: State, t: Tid, priority: int)
    requires Closed(st) && t !in st.threads
    ensures Create(st, t, priority).holder == st.holder
  {
    hide Closed, InsertOrdered;
    NewClosed(st, t, priority);
    KnownReady(New(st, t, priority));
  }

  lemma StartHolders(st: State, higher: bool)
    requires Closed(st)
    ensures Start(st, higher).holder == st.holder
  {
    hide Yield;
    SetCurrentClosed(st, st.threads[st.cur].(phase := Free));
    YieldHolders(SetCurrent(st, st.threads[st.cur].(phase := Free)));
  }

  lemma AttemptHolders(st: State, s: nat)
    requires Closed(st) && s in st.semas && (s in st.holder ==> st.semas[s].value == 0)
    ensures forall l :: l in st.holder ==> l in Attempt(st, s).holder && Attempt(st, s).holder[l] == st.holder[l]
  {
    hide InsertOrdered, Closed;
    KnownReady(st);
  }

  lemma AcquireHolders(st: State, k: nat)
    requires Closed(st) && k in st.semas && (k in st.holder ==> st.semas[k].value == 0)
    ensures forall l :: l in st.holder ==> l in Acquire(st, k).holder && Acquire(st, k).holder[l] == st.holder[l]
  {
    hide Closed, Propagate, Attempt, Register;
    KnownReady(st);
    RegisterClosed(st, k);
    RegisterKeeps(st, k);
    var asked, p := Register(st, k), st.threads[st.cur].priority;
    PropagateClosed(asked, Some(k), p, DONATION_DEPTH);
    AttemptHolders(if k in st.holder then Propagate(asked, Some(k), p, DONATION_DEPTH) else asked, k);
  }

  lemma DownHolders(st: State, s: nat)
    requires Closed(st) && s in st.semas && s !in st.holder
    ensures forall l :: l in st.holder ==> l in Down(st, s).holder && Down(st, s).holder[l] == st.holder[l]
  {
    hide Attempt;
    AttemptHolders(SetCurrent(st, st.threads[st.cur].(phase := Downing(s))), s);
  }

  lemma HeldIsTaken(st: State)
    requires Inv(st)
    ensures forall l :: l in st.holder ==> l in st.locks && st.semas[l].value == 0
    ensures st.threads[st.cur].phase.Claiming? ==> st.threads[st.cur].phase.s !in st.holder
  {
    hide ReadyOk, WaitOk, DonorOk;
    assert Handles(st.threads[st.cur].phase) ==> HandOver(st, st.cur, st.threads[st.cur].phase.s);
  }

  /** Mutual exclusion: a held lock stays with its holder through every step but the holder's own
      release of it. */
  lemma HeldUntilReleased(st: State, step: Step, l: nat)
    requires Inv(st) && Enabled(st, step) && l in st.holder && step != ReleaseStep(l)
    ensures l in Next(st, step).holder && Next(st, step).holder[l] == st.holder[l]
  {
    hide Base, Closed, Yield, Down, Acquire, Attempt, Up, PassOn, YieldOwn, Create, Start, InsertOrdered, Effective, NotFor;
    InvClosed(st);
    KnownReady(st);
    HeldIsTaken(st);
    match step
    case Preempt => YieldHolders(st);
    case DownStep(s) => DownHolders(st, s);
    case AcquireStep(k) => LockKnown(st, k); AcquireHolders(st, k);
    case ResumeStep => AttemptHolders(st, st.threads[st.cur].phase.s);
    case UpStep(s, interrupt) => UpHolders(st, s, interrupt);
    case BaseStep(_) =>
    case UpdateStep => KnownDonors(st);
    case PassStep => OwnHolders(st);
    case CompareStep =>
    case YieldStep => OwnHolders(st);
    case CreateStep(t, priority) => CreateHolders(st, t, priority);
    case StartStep(higher) => StartHolders(st, higher);
    case ReleaseStep(k) => KnownDonors(st);
    case TryStep(k) => LockKnown(st, k);
    case ExitStep => GoneClosed(st); KnownReady(Gone(st));
    case _ =>
  }

  lemma KnownDonors(st: State)
    requires Closed(st)
    ensures Known(st.threads[st.cur].donors, st.threads)
  {
  }

  // ----- what single steps achieve ---------------------------------------------------------------------------

  /** list_max takes the first among the highest. */
  lemma {:induction false} FirstAmongHighest(q: seq<Tid>, ts: map<Tid, Thread>)
    requires q != [] && Known(q, ts)
    ensures exists i :: 0 <= i < |q| && q[i] == FirstMax(q, ts) && forall j :: 0 <= j < i ==> ts[q[j]].priority < ts[q[i]].priority
  {
    if |q| == 1 {
      assert q[0] == FirstMax(q, ts);
    } else {
      var init, last := q[..|q| - 1], q[|q| - 1];
      FirstAmongHighest(init, ts);
      var i :| 0 <= i < |init| && init[i] == FirstMax(init, ts) && forall j :: 0 <= j < i ==> ts[init[j]].priority < ts[init[i]].priority;
      var m := FirstMax(init, ts);
      if ts[m].priority < ts[last].priority {
        assert q[|q| - 1] == FirstMax(q, ts);
        assert forall j :: 0 <= j < |init| ==> q[j] == init[j] && q[j] in init;
      } else {
        assert q[i] == FirstMax(q, ts);
        assert forall j :: 0 <= j <= i ==> q[j] == init[j];
      }
    }
  }

  /** Yielding leaves semaphores and holders alone and blocks nobody. */
  lemma YieldOutcome(st: State, t: Tid)
    requires Closed(st) && t in st.threads
    ensures var w := Yield(st);
      w.semas == st.semas && w.holder == st.holder && t in w.threads && (st.threads[t].status != Blocked ==> w.threads[t].status != Blocked)
  {
    hide Closed, InsertOrdered;
    KnownReady(st);
  }

  /** After a yield no ready thread has more priority than the running one, nor has the thread that yielded. */
  lemma YieldRunsHighest(st: State)
    requires Inv(st)
    ensures Closed(st) && Yield(st).cur in Yield(st).threads && Known(Yield(st).ready, Yield(st).threads)
    ensures var w := Yield(st);
      && (forall t :: t in w.ready ==> w.threads[t].priority <= w.threads[w.cur].priority)
      && (st.cur != st.idle ==> st.threads[st.cur].priority <= w.threads[w.cur].priority)
      && (forall t :: t in st.ready ==> t in st.threads && st.threads[t].priority <= w.threads[w.cur].priority)
  {
    hide Enqueue, Dispatch, WaitOk, LockOk, DonorOk, ReadyOk;
    CurrentLoose(st);
    YieldInv(st);
    if st.cur == st.idle {
      IdleReady(st);
      DispatchHighest(SetCurrent(st, st.threads[st.cur].(status := Ready)));
    } else {
      WeakerBase(st, st.cur);
      EnqueueBase(st, st.cur);
      EnqueueTouches(st, st.cur);
      EnqueueKept(st, st.cur);
      InReady(st, st.cur);
      DispatchHighest(Enqueue(st, st.cur));
    }
  }

  lemma InReady(st: State, t: Tid)
    requires t in st.threads && Known(st.ready, st.threads)
    ensures forall u :: u in Enqueue(st, t).ready <==> u in st.ready || u == t
  {
  }

  lemma DispatchHighest(st: State)
    requires Base(st, None) && forall t :: t in st.threads ==> st.threads[t].status != Running
    ensures var w := Dispatch(st);
      && Known(w.ready, w.threads) && w.cur in w.threads
      && (forall t :: t in w.ready ==> w.threads[t].priority <= w.threads[w.cur].priority)
      && (forall t :: t in st.ready ==> st.threads[t].priority <= w.threads[w.cur].priority)
  {
    hide WaitOk, LockOk, DonorOk, ReadyOk;
    DispatchInv(st);
  }

  /** sema_up adds one to the value and, if anybody waits, makes the first among the waiters of the highest priority
      ready or running; the other waiters go on waiting in order. */
  lemma UpWakesHighest(st: State, s: nat, interrupt: bool)
    requires Closed(st) && s in st.semas
    ensures var w := Up(st, s, interrupt); s in w.semas && w.semas[s].value == st.semas[s].value + 1
    ensures st.semas[s].waiters == [] ==> Up(st, s, interrupt) == Post(st, s)
    ensures st.semas[s].waiters != [] ==> exists m :: WokenBy(st, Up(st, s, interrupt), s, m)
  {
    hide Closed, FirstMax, Without, InsertOrdered, Yield;
    KnownReady(st);
    PostKept(st, s);
    var posted := Post(st, s);
    if posted.semas[s].waiters != [] {
      UnlistedKept(posted, s);
      var off, m := Unlisted(posted, s), FirstMax(posted.semas[s].waiters, posted.threads);
      KnownReady(off);
      EnqueueClosed(off, m);
      YieldOutcome(Enqueue(off, m), m);
      FirstWoken(st, s);
      assert WokenBy(st, Up(st, s, interrupt), s, m);
    }
  }

  ghost predicate WokenBy(st: State, w: State, s: nat, m: Tid)
    requires s in st.semas && s in w.semas
  {
    && m in st.semas[s].waiters && m in st.threads && m in w.threads && w.threads[m].status != Blocked
    && (forall t :: t in st.semas[s].waiters && t in st.threads ==> st.threads[t].priority <= st.threads[m].priority)
    && (exists i :: 0 <= i < |st.semas[s].waiters| && st.semas[s].waiters[i] == m && Ahead(st, st.semas[s].waiters[..i], m))
    && w.semas[s].waiters == Without(st.semas[s].waiters, m)
  }

  /** Everybody in Q has less priority than M. */
  ghost predicate Ahead(st: State, q: seq<Tid>, m: Tid)
    requires m in st.threads
  {
    forall j :: 0 <= j < |q| ==> q[j] in st.threads && st.threads[q[j]].priority < st.threads[m].priority
  }

  lemma FirstWoken(st: State, s: nat)
    requires Closed(st) && s in st.semas && st.semas[s].waiters != [] && Closed(Post(st, s)) && s in Post(st, s).semas
    ensures var q := st.semas[s].waiters; var m := FirstMax(q, Post(st, s).threads);
      m in st.threads && exists i :: 0 <= i < |q| && q[i] == m && Ahead(st, q[..i], m)
  {
    hide Closed, FirstMax;
    KnownReady(st);
    WaitersKnown(st, s);
    var q, ts := st.semas[s].waiters, Post(st, s).threads;
    FirstAmongHighest(q, ts);
    var i :| 0 <= i < |q| && q[i] == FirstMax(q, ts) && forall j :: 0 <= j < i ==> ts[q[j]].priority < ts[q[i]].priority;
    assert forall t :: t in st.threads ==> ts[t].priority == st.threads[t].priority;
    assert Ahead(st, q[..i], q[i]);
  }

  lemma AttemptOutcome(st: State, s: nat)
    requires Closed(st) && s in st.semas
    ensures var w := Attempt(st, s);
      && s in w.semas && w.threads.Keys == st.threads.Keys && (forall t :: t in st.threads ==> w.threads[t].donors == st.threads[t].donors)
      && (st.semas[s].value == 0 ==> st.cur in w.semas[s].waiters && w.threads[st.cur].blocking == st.threads[st.cur].blocking)
      && (st.semas[s].value > 0 ==> w.cur == st.cur && w.semas[s].value == st.semas[s].value - 1)
      && (st.semas[s].value > 0 && st.threads[st.cur].phase.Acquiring? ==> s in w.holder && w.holder[s] == st.cur)
  {
    hide Closed, InsertOrdered;
    KnownReady(st);
    WaitersKnown(st, s);
  }

  lemma Listed(st: State, l: nat)
    requires Closed(st) && l in st.holder && st.holder[l] != st.cur
    ensures st.holder[l] in Register(st, l).threads && st.cur in Register(st, l).threads[st.holder[l]].donors
  {
    hide InsertOrdered;
  }

  lemma WaitersKnown(st: State, s: nat)
    requires Closed(st) && s in st.semas
    ensures Known(st.semas[s].waiters, st.threads)
  {
  }

  /** Whoever is on a wait list is blocked, and so not running. */
  lemma WaiterBlocked(st: State, s: nat, t: Tid)
    requires Inv(st) && s in st.semas && t in st.semas[s].waiters
    ensures t in st.threads && st.threads[t].status == Blocked && st.cur != t
  {
    hide ReadyOk, LockOk, DonorOk;
  }

  /** lock_acquire of a free lock makes the thread its holder and it runs on; of a lock that is taken, it
      blocks the thread on the lock and, if somebody holds it, lists it with the holder as a donor. */
  lemma AcquireOutcome(st: State, l: nat)
    requires Inv(st) && MayAcquire(st, l)
    ensures Closed(st) && l in st.semas && Closed(Acquire(st, l)) && st.cur in Acquire(st, l).threads && l in Acquire(st, l).semas
    ensures st.semas[l].value > 0 ==>
      var w := Acquire(st, l); l in w.holder && w.holder[l] == st.cur && w.cur == st.cur && w.semas[l].value == st.semas[l].value - 1
    ensures st.semas[l].value == 0 ==>
      var w := Acquire(st, l); st.cur in w.semas[l].waiters && w.threads[st.cur].status == Blocked && w.cur != st.cur
    ensures l in st.holder ==>
      var w := Acquire(st, l); w.threads[st.cur].blocking == Some(l) && st.holder[l] in w.threads && st.cur in w.threads[st.holder[l]].donors
  {
    hide Base, Closed, Propagate, Attempt, Register;
    InvClosed(st);
    KnownReady(st);
    LockKnown(st, l);
    HeldIsTaken(st);
    AcquireInv(st, l);
    InvClosed(Acquire(st, l));
    RegisterClosed(st, l);
    RegisterKeeps(st, l);
    if l in st.holder {
      Listed(st, l);
    }
    var asked, p := Register(st, l), st.threads[st.cur].priority;
    PropagateClosed(asked, Some(l), p, DONATION_DEPTH);
    var u := if l in st.holder then Propagate(asked, Some(l), p, DONATION_DEPTH) else asked;
    AttemptOutcome(u, l);
    if st.semas[l].value == 0 {
      WaiterBlocked(Acquire(st, l), l, st.cur);
    }
  }
}
