/** Priority scheduling and priority donation (src/threads/thread.c, src/threads/synch.c),
    as a machine whose steps are the stretches of code that run with interrupts off. */
module Scheduling {
  import opened Options

  type Tid = nat

  datatype Status = Running | Ready | Blocked

  /** Where a thread is in a synchronization operation: inside sema_down, inside lock_acquire,
      between the two halves of lock_try_acquire, between the two halves of lock_release, inside
      thread_set_priority with its base priority stored, its priority updated, passed on, and found too low,
      or inside thread_create with thread T made ready. */
  datatype Phase = Free | Downing(s: nat) | Acquiring(s: nat) | Claiming(s: nat) | Releasing(s: nat)
                 | Setting | Passing | Comparing | Yielding | Starting(t: Tid)

  /** `struct thread`; STAMP records, for the proof only, when it was last put on the ready list. */
  datatype Thread = Thread(status: Status, priority: int, base: int, donors: seq<Tid>,
                           blocking: Option<nat>, phase: Phase, stamp: nat)

  datatype Sema = Sema(value: nat, waiters: seq<Tid>)

  /** LOCKS are the semaphores that belong to locks; HOLDER has the held ones.  HANDLER records, for
      the proof only, which thread was the last to be between two halves of an operation on a lock. */
  datatype State = State(threads: map<Tid, Thread>, semas: map<nat, Sema>, locks: set<nat>, holder: map<nat, Tid>,
                         ready: seq<Tid>, cur: Tid, idle: Tid, clock: nat, handler: map<nat, Tid>)

  // ----- queues ------------------------------------------------------------------------

  ghost predicate Known(q: seq<Tid>, ts: map<Tid, Thread>) {
    forall t :: t in q ==> t in ts
  }

  /** list_insert_ordered with thread_cmp: after everything of at least the same priority at the
      front. */
  function InsertOrdered(q: seq<Tid>, x: Tid, ts: map<Tid, Thread>): (r: seq<Tid>)
    requires x in ts && Known(q, ts)
    ensures multiset(r) == multiset(q) + multiset{x}
    ensures forall t :: t in r <==> t in q || t == x
  {
    if q == [] || ts[x].priority > ts[q[0]].priority then [x] + q
    else
      assert q == [q[0]] + q[1..];
      [q[0]] + InsertOrdered(q[1..], x, ts)
  }

  /** list_remove. */
  function Without(q: seq<Tid>, x: Tid): (r: seq<Tid>)
    ensures forall t :: t in r <==> t in q && t != x
  {
    if q == [] then []
    else if q[0] == x then Without(q[1..], x)
    else [q[0]] + Without(q[1..], x)
  }

  /** A is to run before B: higher priority, or the same and waiting for longer. */
  predicate Before(a: Thread, b: Thread) {
    a.priority > b.priority || (a.priority == b.priority && a.stamp < b.stamp)
  }

  ghost predicate SortedQueue(q: seq<Tid>, ts: map<Tid, Thread>)
    requires Known(q, ts)
  {
    q == [] || ((forall t :: t in q[1..] ==> Before(ts[q[0]], ts[t])) && SortedQueue(q[1..], ts))
  }

  lemma {:induction false} InsertKeepsSorted(q: seq<Tid>, x: Tid, ts: map<Tid, Thread>)
    requires x in ts && Known(q, ts) && SortedQueue(q, ts)
    requires forall t :: t in q ==> ts[t].stamp < ts[x].stamp
    ensures SortedQueue(InsertOrdered(q, x, ts), ts)
  {
    if q == [] {
    } else if ts[x].priority > ts[q[0]].priority {
      assert ([x] + q)[1..] == q;
    } else {
      InsertKeepsSorted(q[1..], x, ts);
      assert InsertOrdered(q, x, ts)[1..] == InsertOrdered(q[1..], x, ts);
    }
  }

  lemma {:induction false} WithoutKeepsSorted(q: seq<Tid>, x: Tid, ts: map<Tid, Thread>)
    requires Known(q, ts) && SortedQueue(q, ts)
    ensures SortedQueue(Without(q, x), ts)
  {
    if q != [] {
      WithoutKeepsSorted(q[1..], x, ts);
      if q[0] != x {
        assert Without(q, x)[1..] == Without(q[1..], x);
      }
    }
  }

  /** The order depends only on the priorities and stamps of the queued threads. */
  lemma {:induction false} SortedFrame(q: seq<Tid>, ts: map<Tid, Thread>, ts': map<Tid, Thread>)
    requires Known(q, ts) && Known(q, ts') && SortedQueue(q, ts)
    requires forall t :: t in q ==> ts'[t].priority == ts[t].priority && ts'[t].stamp == ts[t].stamp
    ensures SortedQueue(q, ts')
  {
    if q != [] {
      SortedFrame(q[1..], ts, ts');
    }
  }

  /** list_max by priority: the first among the highest. */
  function FirstMax(q: seq<Tid>, ts: map<Tid, Thread>): (m: Tid)
    requires q != [] && Known(q, ts)
    ensures m in q && forall t :: t in q ==> ts[t].priority <= ts[m].priority
  {
    if |q| == 1 then q[0]
    else
      var init, last := q[..|q| - 1], q[|q| - 1];
      assert q == init + [last];
      var m := FirstMax(init, ts);
      if ts[m].priority < ts[last].priority then last else m
  }

  // ----- the parts of a step --------------------------------------------------------------

  const DONATION_DEPTH: nat := 8

  predicate Waits(p: Phase) {
    p.Downing? || p.Acquiring?
  }

  /** Everything a list or field points to exists. */
  ghost predicate Closed(st: State) {
    && st.cur in st.threads && st.idle in st.threads
    && Known(st.ready, st.threads)
    && (forall s :: s in st.semas ==> Known(st.semas[s].waiters, st.threads))
    && (forall t :: t in st.threads ==> Known(st.threads[t].donors, st.threads))
    && st.locks <= st.semas.Keys && st.holder.Keys <= st.locks
    && (forall l :: l in st.holder ==> st.holder[l] in st.threads)
  }

  /** thread_unblock, and the first half of thread_yield: T goes on the ready list. */
  function Enqueue(st: State, t: Tid): State
    requires t in st.threads && Known(st.ready, st.threads)
  {
    var ts := st.threads[t := st.threads[t].(status := Ready, stamp := st.clock)];
    st.(threads := ts, ready := InsertOrdered(st.ready, t, ts), clock := st.clock + 1)
  }

  /** schedule: the front of the ready list runs, or the idle thread if there is none. */
  function Dispatch(st: State): State
    requires st.idle in st.threads && Known(st.ready, st.threads)
  {
    var next := if st.ready == [] then st.idle else st.ready[0];
    st.(cur := next, ready := if st.ready == [] then [] else st.ready[1..],
        threads := st.threads[next := st.threads[next].(status := Running)])
  }

  /** Donation reaches H: it gets priority P and, if ready, a new place on the ready list. */
  function Raise(st: State, h: Tid, p: int): State
    requires h in st.threads && Known(st.ready, st.threads)
  {
    var raised := st.(threads := st.threads[h := st.threads[h].(priority := p)]);
    if st.threads[h].status == Ready then Enqueue(raised.(ready := Without(st.ready, h)), h) else raised
  }

  /** The loop of thread_propagate_priority from lock L on, for a thread of priority P. */
  function Propagate(st: State, l: Option<nat>, p: int, fuel: nat): State
    requires Closed(st)
    decreases fuel
  {
    if l.None? || fuel == 0 || l.value !in st.holder then st
    else
      var h := st.holder[l.value];
      if st.threads[h].priority < p then
        RaiseClosed(st, h, p);
        Propagate(Raise(st, h, p), st.threads[h].blocking, p, fuel - 1)
      else st
  }

  lemma KnownReady(st: State)
    requires Closed(st)
    ensures Known(st.ready, st.threads) && st.cur in st.threads && st.idle in st.threads
  {
  }

  lemma RaiseClosed(st: State, h: Tid, p: int)
    requires Closed(st) && h in st.threads
    ensures Closed(Raise(st, h, p))
  {
    hide Raise;
    RaiseTouches(st, h, p);
    TouchClosed(st, Raise(st, h, p), h);
  }

  // ----- what every step keeps --------------------------------------------------------------

  /** The ready list holds exactly the ready threads other than idle, in dispatch order. */
  ghost predicate ReadyOk(st: State)
    requires Closed(st)
  {
    && (forall t :: t in st.threads && t != st.idle ==> (t in st.ready <==> st.threads[t].status == Ready))
    && st.idle !in st.ready
    && SortedQueue(st.ready, st.threads)
    && (forall t :: t in st.threads ==> st.threads[t].stamp < st.clock)
    && (forall t :: t in st.threads && st.threads[t].status == Running ==> t == st.cur)
  }

  /** Exactly the blocked threads inside sema_down or lock_acquire are on wait lists, each on the
      list of the semaphore it waits for; X, if any, is a thread just taken off its list. */
  ghost predicate WaitOk(st: State, x: Option<Tid>)
    requires Closed(st)
  {
    && (forall s, t :: s in st.semas && t in st.semas[s].waiters ==>
          st.threads[t].status == Blocked && Waits(st.threads[t].phase) && st.threads[t].phase.s == s)
    && (forall t :: t in st.threads && Waits(st.threads[t].phase) ==>
          && st.threads[t].phase.s in st.semas
          && (st.threads[t].phase.Acquiring? <==> st.threads[t].phase.s in st.locks)
          && (st.threads[t].status == Blocked && x != Some(t) ==> t in st.semas[st.threads[t].phase.s].waiters))
  }

  /** Between the two halves of an operation on a lock. */
  predicate Handles(p: Phase) {
    p.Claiming? || p.Releasing?
  }

  /** A lock that is held or being handed over has value 0, and only one thread handles it. */
  ghost predicate LockOk(st: State)
    requires Closed(st)
  {
    && (forall l :: l in st.locks ==> st.semas[l].value <= 1)
    && (forall l :: l in st.holder ==> st.semas[l].value == 0 && st.holder[l] != st.idle)
    && (forall t :: t in st.threads && Handles(st.threads[t].phase) ==> HandOver(st, t, st.threads[t].phase.s))
    && st.threads[st.idle].phase == Free
  }

  ghost predicate HandOver(st: State, t: Tid, l: nat)
    requires Closed(st) && t in st.threads
  {
    && l in st.locks && l !in st.holder && st.semas[l].value == 0 && st.threads[t].status != Blocked
    && l in st.handler && st.handler[l] == t
  }

  /** Every listed donor of T is blocked waiting for a lock that T holds; X, if any, is still running. */
  ghost predicate DonorOk(st: State, x: Option<Tid>)
    requires Closed(st)
  {
    && BlockingOk(st)
    && (forall t, d :: t in st.threads && d in st.threads[t].donors ==> Donates(st, d, t) && (x == Some(d) || st.threads[d].status == Blocked))
  }

  /** blocking_lock is set only inside lock_acquire on that lock. */
  ghost predicate BlockingOk(st: State) {
    forall t :: t in st.threads && st.threads[t].blocking.Some? ==> st.threads[t].phase == Acquiring(st.threads[t].blocking.value)
  }

  ghost predicate Donates(st: State, d: Tid, t: Tid)
    requires d in st.threads
  {
    && st.threads[d].blocking.Some? && st.threads[d].blocking.value in st.holder
    && st.holder[st.threads[d].blocking.value] == t
  }

  ghost predicate Base(st: State, x: Option<Tid>) {
    Closed(st) && ReadyOk(st) && WaitOk(st, x) && LockOk(st) && DonorOk(st, x)
  }

  ghost predicate Inv(st: State) {
    Base(st, None) && st.threads[st.cur].status == Running
  }

  /** No thread has less than its own priority, unless it is just setting it, or than a listed donor's; X may
      be owed by its holder. */
  ghost predicate PriorityOk(st: State, x: Option<Tid>)
    requires Closed(st)
  {
    && (forall t :: t in st.threads && st.threads[t].phase != Setting ==> st.threads[t].priority >= st.threads[t].base)
    && (forall t, d :: t in st.threads && d in st.threads[t].donors && x != Some(d) ==> st.threads[t].priority >= st.threads[d].priority)
  }

  // ----- Enqueue --------------------------------------------------------------------------

  lemma EnqueueReady(st: State, t: Tid)
    requires Closed(st) && ReadyOk(st) && t in st.threads && t != st.idle && t !in st.ready
    ensures Closed(Enqueue(st, t)) && ReadyOk(Enqueue(st, t))
  {
    hide InsertOrdered, SortedQueue;
    var w := Enqueue(st, t);
    SortedFrame(st.ready, st.threads, w.threads);
    InsertKeepsSorted(st.ready, t, w.threads);
  }

  /** T may go on the ready list: it is on no other list. */
  ghost predicate Loose(st: State, t: Tid) {
    && t in st.threads && t != st.idle && t !in st.ready
    && (forall s :: s in st.semas ==> t !in st.semas[s].waiters)
    && (forall u :: u in st.threads ==> t !in st.threads[u].donors)
  }

  // ----- frames: what a step does not touch it keeps ------------------------------------------

  lemma WaitFrame(st: State, w: State, x: Option<Tid>)
    requires Closed(st) && Closed(w) && WaitOk(st, x)
    requires w.threads.Keys == st.threads.Keys && w.locks == st.locks && w.semas.Keys == st.semas.Keys
    requires forall s :: s in st.semas ==> w.semas[s].waiters == st.semas[s].waiters
    requires forall t :: t in st.threads ==> w.threads[t].phase == st.threads[t].phase
    requires forall t :: t in st.threads && w.threads[t].status != st.threads[t].status ==>
      w.threads[t].status != Blocked && (Waits(st.threads[t].phase) && st.threads[t].status == Blocked ==> x == Some(t))
    requires forall s :: s in st.semas && x.Some? ==> x.value !in st.semas[s].waiters
    ensures WaitOk(w, x)
  {
  }

  lemma LockFrame(st: State, w: State)
    requires Closed(st) && Closed(w) && LockOk(st) && w.threads.Keys == st.threads.Keys
    requires w.locks == st.locks && w.holder == st.holder && w.idle == st.idle && w.handler == st.handler && w.semas.Keys == st.semas.Keys
    requires forall l :: l in st.locks ==> w.semas[l].value == st.semas[l].value
    requires forall t :: t in st.threads ==> w.threads[t].phase == st.threads[t].phase
    requires forall t :: t in st.threads && Handles(st.threads[t].phase) && w.threads[t].status == Blocked ==> st.threads[t].status == Blocked
    ensures LockOk(w)
  {
  }

  lemma DonorFrame(st: State, w: State, x: Option<Tid>)
    requires Closed(st) && Closed(w) && DonorOk(st, x) && w.threads.Keys == st.threads.Keys && w.holder == st.holder
    requires forall t :: t in st.threads ==>
      && w.threads[t].phase == st.threads[t].phase && w.threads[t].blocking == st.threads[t].blocking
      && w.threads[t].donors == st.threads[t].donors
    requires forall u, t :: u in st.threads && t in st.threads[u].donors && st.threads[t].status == Blocked ==> w.threads[t].status == Blocked
    ensures DonorOk(w, x)
  {
    forall t, d | t in w.threads && d in w.threads[t].donors
      ensures Donates(w, d, t) && (x == Some(d) || w.threads[d].status == Blocked)
    {
      assert d in st.threads[t].donors;
      assert Donates(st, d, t);
    }
  }

  /** W differs from ST at most in the ready list, the clock, the current thread, and the status,
      priority and stamp of H. */
  ghost predicate Touches(st: State, w: State, h: Tid) {
    && h in st.threads && w.threads.Keys == st.threads.Keys
    && w.semas == st.semas && w.locks == st.locks && w.holder == st.holder && w.idle == st.idle && w.handler == st.handler
    && (forall t :: t in st.threads && t != h ==> w.threads[t] == st.threads[t])
    && w.threads[h] == st.threads[h].(status := w.threads[h].status, priority := w.threads[h].priority, stamp := w.threads[h].stamp)
  }

  lemma TouchClosed(st: State, w: State, h: Tid)
    requires Closed(st) && Touches(st, w, h) && Known(w.ready, w.threads) && w.cur in w.threads
    ensures Closed(w)
  {
  }

  lemma TouchBase(st: State, w: State, h: Tid, x: Option<Tid>)
    requires Base(st, x) && Touches(st, w, h) && Closed(w) && ReadyOk(w)
    requires forall s :: s in st.semas && x.Some? ==> x.value !in st.semas[s].waiters
    requires w.threads[h].status != st.threads[h].status ==>
      && w.threads[h].status != Blocked
      && (st.threads[h].status == Blocked && Waits(st.threads[h].phase) ==> x == Some(h))
      && (forall u :: u in st.threads ==> h !in st.threads[u].donors)
    ensures Base(w, x)
  {
    hide ReadyOk, WaitOk, LockOk, DonorOk;
    WaitFrame(st, w, x);
    LockFrame(st, w);
    DonorFrame(st, w, x);
  }

  lemma EnqueueTouches(st: State, t: Tid)
    requires t in st.threads && Known(st.ready, st.threads)
    ensures Touches(st, Enqueue(st, t), t) && Enqueue(st, t).threads[t].status == Ready
  {
    hide InsertOrdered;
  }

  lemma EnqueueBase(st: State, t: Tid)
    requires Base(st, Some(t)) && Loose(st, t)
    ensures Base(Enqueue(st, t), None)
  {
    hide Enqueue, ReadyOk, WaitOk, LockOk, DonorOk;
    EnqueueReady(st, t);
    EnqueueTouches(st, t);
    TouchBase(st, Enqueue(st, t), t, Some(t));
    NotWaiting(Enqueue(st, t), t);
  }

  lemma NotWaiting(st: State, t: Tid)
    requires Closed(st) && WaitOk(st, Some(t)) && DonorOk(st, Some(t)) && t in st.threads && st.threads[t].status != Blocked
    requires forall u :: u in st.threads ==> t !in st.threads[u].donors
    ensures WaitOk(st, None) && DonorOk(st, None)
  {
  }

  // ----- Dispatch -------------------------------------------------------------------------

  lemma {:induction false} FrontIsHighest(q: seq<Tid>, ts: map<Tid, Thread>, t: Tid)
    requires Known(q, ts) && SortedQueue(q, ts) && t in q
    ensures ts[q[0]].priority >= ts[t].priority
    ensures t in q[1..] ==> t != q[0]
  {
  }

  lemma DispatchReady(st: State)
    requires Closed(st) && ReadyOk(st) && forall t :: t in st.threads ==> st.threads[t].status != Running
    ensures Closed(Dispatch(st)) && ReadyOk(Dispatch(st))
  {
    hide InsertOrdered;
    var w := Dispatch(st);
    if st.ready != [] {
      var q := st.ready[1..];
      assert forall t :: t in st.ready <==> t == st.ready[0] || t in q;
      SortedFrame(q, st.threads, w.threads);
    }
  }

  /** Scheduling completes a step, and always picks a thread of the highest priority. */
  lemma DispatchInv(st: State)
    requires Base(st, None) && forall t :: t in st.threads ==> st.threads[t].status != Running
    ensures Inv(Dispatch(st))
    ensures forall t :: t in st.ready ==> st.threads[Dispatch(st).cur].priority >= st.threads[t].priority
  {
    hide Dispatch, ReadyOk, WaitOk, LockOk, DonorOk;
    DispatchReady(st);
    DispatchTouches(st);
    NextNotWaiting(st);
    var w := Dispatch(st);
    TouchBase(st, w, w.cur, None);
    forall t | t in st.ready
      ensures st.threads[w.cur].priority >= st.threads[t].priority
    {
      ReadySorted(st);
      FrontIsHighest(st.ready, st.threads, t);
    }
  }

  lemma DispatchTouches(st: State)
    requires st.idle in st.threads && Known(st.ready, st.threads)
    ensures var w := Dispatch(st);
      && w.cur == (if st.ready == [] then st.idle else st.ready[0])
      && Touches(st, w, w.cur) && w.threads[w.cur].status == Running
  {
  }

  lemma ReadySorted(st: State)
    requires Closed(st) && ReadyOk(st)
    ensures SortedQueue(st.ready, st.threads)
  {
  }

  /** The thread to run next is neither on a wait list nor on a donor list. */
  lemma NextNotWaiting(st: State)
    requires Base(st, None)
    ensures var next := if st.ready == [] then st.idle else st.ready[0];
      && (st.threads[next].status == Blocked ==> !Waits(st.threads[next].phase))
      && (forall u :: u in st.threads ==> next !in st.threads[u].donors)
  {
    hide InsertOrdered, SortedQueue;
  }

  // ----- Raise ----------------------------------------------------------------------------

  lemma RaiseTouches(st: State, h: Tid, p: int)
    requires h in st.threads && Known(st.ready, st.threads)
    ensures var w := Raise(st, h, p);
      && Touches(st, w, h) && w.threads[h].status == st.threads[h].status && w.threads[h].priority == p
      && w.cur == st.cur && Known(w.ready, w.threads)
  {
    hide InsertOrdered, Without;
  }

  lemma RaiseQueue(st: State, h: Tid, p: int)
    requires Closed(st) && ReadyOk(st) && h in st.threads && h != st.idle
    ensures var w := Raise(st, h, p);
      && Known(w.ready, w.threads) && SortedQueue(w.ready, w.threads)
      && (forall t :: t in w.ready <==> t in st.ready)
      && (forall t :: t in w.threads ==> w.threads[t].stamp < w.clock)
  {
    hide InsertOrdered, SortedQueue, Without;
    var w := Raise(st, h, p);
    if st.threads[h].status == Ready {
      var q := Without(st.ready, h);
      WithoutKeepsSorted(st.ready, h, st.threads);
      SortedFrame(q, st.threads, w.threads);
      InsertKeepsSorted(q, h, w.threads);
    } else {
      SortedFrame(st.ready, st.threads, w.threads);
    }
  }

  lemma RaiseBase(st: State, h: Tid, p: int, x: Option<Tid>)
    requires Base(st, x) && h in st.threads && h != st.idle
    requires forall s :: s in st.semas && x.Some? ==> x.value !in st.semas[s].waiters
    ensures Base(Raise(st, h, p), x)
  {
    hide Raise, SortedQueue, WaitOk, LockOk, DonorOk;
    RaiseTouches(st, h, p);
    RaiseQueue(st, h, p);
    RaiseClosed(st, h, p);
    TouchBase(st, Raise(st, h, p), h, x);
  }

  // ----- donation --------------------------------------------------------------------------

  /** The holders that donation of priority P from lock L has to reach: up the chain of waiting
      holders, as long as they have less than P. */
  function Chain(st: State, l: Option<nat>, p: int, seen: set<Tid>): (chain: seq<Tid>)
    requires Closed(st)
    ensures Known(chain, st.threads)
    decreases st.threads.Keys - seen
  {
    if l.None? || l.value !in st.holder then []
    else
      var h := st.holder[l.value];
      if h in seen || st.threads[h].priority >= p then []
      else [h] + Chain(st, st.threads[h].blocking, p, seen + {h})
  }

  /** A raised holder is, for the rest of the chain, like one already seen. */
  lemma {:induction false} ChainRaised(st: State, w: State, h: Tid, l: Option<nat>, p: int, seen: set<Tid>)
    requires Closed(st) && Closed(w) && Touches(st, w, h) && w.threads[h].priority >= p
    ensures Chain(w, l, p, seen) == Chain(st, l, p, seen + {h})
    decreases st.threads.Keys - seen
  {
    if l.Some? && l.value in st.holder {
      var g := st.holder[l.value];
      if g != h && g !in seen && st.threads[g].priority < p {
        ChainRaised(st, w, h, st.threads[g].blocking, p, seen + {g});
        assert seen + {g} + {h} == seen + {h} + {g};
      }
    }
  }

  /** Raising a holder above the donor that is owed moves the debt one lock further. */
  lemma RaiseOwes(st: State, x: Tid, h: Tid, p: int)
    requires Closed(st) && PriorityOk(st, Some(x)) && x in st.threads && h in st.threads
    requires st.threads[x].priority == p && st.threads[h].priority < p
    requires forall t :: t in st.threads && x in st.threads[t].donors ==> t == h
    ensures Closed(Raise(st, h, p)) && PriorityOk(Raise(st, h, p), Some(h)) && Raise(st, h, p).threads[h].priority == p
    ensures Raise(st, h, p).holder == st.holder && Raise(st, h, p).threads.Keys == st.threads.Keys
    ensures forall t :: t in st.threads ==>
      Raise(st, h, p).threads[t].donors == st.threads[t].donors && Raise(st, h, p).threads[t].blocking == st.threads[t].blocking
  {
    hide Raise, Closed;
    RaiseClosed(st, h, p);
    KnownReady(st);
    RaiseTouches(st, h, p);
    KnownAll(st);
  }

  lemma KnownAll(st: State)
    requires Closed(st)
    ensures forall t :: t in st.threads ==> Known(st.threads[t].donors, st.threads)
  {
  }

  /** Donor X is owed by at most the holder of the lock it waits for. */
  lemma OnlyCreditor(st: State, x: Tid, y: Option<Tid>)
    requires Closed(st) && DonorOk(st, y) && x in st.threads
    ensures forall t :: t in st.threads && x in st.threads[t].donors ==>
      && st.threads[x].blocking.Some? && st.threads[x].blocking.value in st.holder
      && t == st.holder[st.threads[x].blocking.value]
  {
  }

  /** A walk of at most FUEL raises up CHAIN, which starts at X's holder, suffices: there is no more to
      climb, or the first thread beyond does not list the last one reached. */
  predicate Suffices(st: State, x: Tid, chain: seq<Tid>, fuel: nat)
    requires forall t :: t in chain ==> t in st.threads
  {
    |chain| <= fuel || (if fuel == 0 then x else chain[fuel - 1]) !in st.threads[chain[fuel]].donors
  }

  /** At the end of the walk nothing is owed any more, or exactly X is. */
  lemma Settled(st: State, x: Tid, p: int, y: Option<Tid>)
    requires Closed(st) && DonorOk(st, y) && PriorityOk(st, Some(x)) && x in st.threads && st.threads[x].priority == p
    ensures var chain := Chain(st, st.threads[x].blocking, p, {});
      PriorityOk(st, None) <==> chain == [] || x !in st.threads[chain[0]].donors
  {
    OnlyCreditor(st, x, y);
  }

  lemma SufficesStep(st: State, w: State, x: Tid, h: Tid, chain: seq<Tid>, fuel: nat)
    requires fuel > 0 && w.threads.Keys == st.threads.Keys && h in st.threads && forall t :: t in chain ==> t in st.threads
    requires forall t :: t in st.threads ==> w.threads[t].donors == st.threads[t].donors
    ensures Known([h] + chain, st.threads)
    ensures Suffices(st, x, [h] + chain, fuel) == Suffices(w, h, chain, fuel - 1)
  {
  }

  /** What the bounded walk of thread_propagate_priority achieves: no listed donor of any thread is
      left with more than that thread if and only if the bound suffices. */
  lemma {:induction false} PropagateExact(st: State, x: Tid, p: int, fuel: nat, y: Option<Tid>)
    requires forall s :: s in st.semas && y.Some? ==> y.value !in st.semas[s].waiters
    requires Base(st, y) && PriorityOk(st, Some(x)) && x in st.threads && st.threads[x].priority == p
    ensures Closed(Propagate(st, st.threads[x].blocking, p, fuel))
    ensures PriorityOk(Propagate(st, st.threads[x].blocking, p, fuel), None) <==>
            Suffices(st, x, Chain(st, st.threads[x].blocking, p, {}), fuel)
    decreases fuel
  {
    hide ReadyOk, WaitOk, LockOk, DonorOk, PriorityOk, Suffices, Raise;
    var l := st.threads[x].blocking;
    OnlyCreditor(st, x, y);
    if l.Some? && l.value in st.holder && st.threads[st.holder[l.value]].priority < p && fuel > 0 {
      var h := st.holder[l.value];
      var w := Raise(st, h, p);
      HolderNotIdle(st, l.value);
      RaiseBase(st, h, p, y);
      RaiseOwes(st, x, h, p);
      RaiseTouches(st, h, p);
      PropagateExact(w, h, p, fuel - 1, y);
      ChainRaised(st, w, h, st.threads[h].blocking, p, {});
      assert {} + {h} == {h};
      SufficesStep(st, w, x, h, Chain(w, st.threads[h].blocking, p, {}), fuel);
    } else {
      Settled(st, x, p, y);
      SufficesNow(st, x, Chain(st, l, p, {}), fuel);
    }
  }

  lemma SufficesNow(st: State, x: Tid, chain: seq<Tid>, fuel: nat)
    requires forall t :: t in chain ==> t in st.threads
    requires chain == [] || fuel == 0
    ensures Suffices(st, x, chain, fuel) <==> chain == [] || x !in st.threads[chain[0]].donors
  {
  }

  lemma HolderNotIdle(st: State, l: nat)
    requires Closed(st) && LockOk(st) && l in st.holder
    ensures st.holder[l] != st.idle
  {
  }

  /** Donation changes nothing but priorities, which it only raises, and ready-list positions. */
  ghost predicate Donated(st: State, w: State) {
    && w.cur == st.cur && w.semas == st.semas && w.locks == st.locks && w.holder == st.holder && w.idle == st.idle
    && w.handler == st.handler && w.threads.Keys == st.threads.Keys
    && (forall t :: t in st.threads ==>
          && w.threads[t] == st.threads[t].(priority := w.threads[t].priority, stamp := w.threads[t].stamp)
          && w.threads[t].priority >= st.threads[t].priority)
  }

  lemma RaiseDonates(st: State, h: Tid, p: int)
    requires Closed(st) && h in st.threads && st.threads[h].priority < p
    ensures Donated(st, Raise(st, h, p))
  {
    hide Raise;
    RaiseTouches(st, h, p);
  }

  lemma {:induction false} PropagateBase(st: State, l: Option<nat>, p: int, fuel: nat, x: Option<Tid>)
    requires Base(st, x) && forall s :: s in st.semas && x.Some? ==> x.value !in st.semas[s].waiters
    ensures Base(Propagate(st, l, p, fuel), x) && Donated(st, Propagate(st, l, p, fuel))
    decreases fuel
  {
    hide ReadyOk, WaitOk, LockOk, DonorOk, Raise;
    if l.Some? && fuel > 0 && l.value in st.holder && st.threads[st.holder[l.value]].priority < p {
      var h := st.holder[l.value];
      HolderNotIdle(st, l.value);
      RaiseBase(st, h, p, x);
      RaiseDonates(st, h, p);
      PropagateBase(Raise(st, h, p), st.threads[h].blocking, p, fuel - 1, x);
    }
  }

  // ----- the steps ----------------------------------------------------------------------------

  function SetCurrent(st: State, th: Thread): State {
    st.(threads := st.threads[st.cur := th])
  }

  /** thread_yield. */
  function Yield(st: State): State
    requires Closed(st)
  {
    if st.cur == st.idle then Dispatch(SetCurrent(st, st.threads[st.cur].(status := Ready)))
    else Dispatch(Enqueue(st, st.cur))
  }

  /** The current thread joins the wait list of S and stops running. */
  function BlockOn(st: State, s: nat): State
    requires Closed(st) && s in st.semas
  {
    st.(semas := st.semas[s := st.semas[s].(waiters := InsertOrdered(st.semas[s].waiters, st.cur, st.threads))],
        threads := st.threads[st.cur := st.threads[st.cur].(status := Blocked)])
  }

  /** The current thread gets through sema_down on S and, if it acquires a lock, becomes its holder. */
  function Proceed(st: State, s: nat): State
    requires Closed(st) && s in st.semas && st.semas[s].value > 0
  {
    st.(semas := st.semas[s := st.semas[s].(value := st.semas[s].value - 1)],
        holder := if st.threads[st.cur].phase.Acquiring? then st.holder[s := st.cur] else st.holder,
        threads := st.threads[st.cur := st.threads[st.cur].(phase := Free, blocking := None)])
  }

  /** One round of the loop in sema_down, with what follows it. */
  function Attempt(st: State, s: nat): State
    requires Closed(st) && s in st.semas
  {
    if st.semas[s].value == 0 then Dispatch(BlockOn(st, s)) else Proceed(st, s)
  }

  /** lock_acquire up to the propagation: the current thread is listed with the holder of L, if any. */
  function Register(st: State, l: nat): State
    requires Closed(st)
  {
    var me := st.threads[st.cur].(phase := Acquiring(l));
    if l in st.holder then
      var h := st.holder[l];
      var ts := st.threads[st.cur := me.(blocking := Some(l))];
      st.(threads := ts[h := ts[h].(donors := InsertOrdered(ts[h].donors, st.cur, ts))])
    else SetCurrent(st, me)
  }

  lemma YieldInv(st: State)
    requires Inv(st)
    ensures Inv(Yield(st))
  {
    hide Enqueue, Dispatch, WaitOk, LockOk, DonorOk;
    CurrentLoose(st);
    if st.cur == st.idle {
      IdleReady(st);
      DispatchInv(SetCurrent(st, st.threads[st.cur].(status := Ready)));
    } else {
      WeakerBase(st, st.cur);
      EnqueueBase(st, st.cur);
      EnqueueTouches(st, st.cur);
      DispatchInv(Enqueue(st, st.cur));
    }
  }

  lemma CurrentLoose(st: State)
    requires Inv(st)
    ensures st.cur != st.idle ==> Loose(st, st.cur)
    ensures forall s :: s in st.semas ==> st.cur !in st.semas[s].waiters
    ensures forall u :: u in st.threads ==> st.cur !in st.threads[u].donors
    ensures st.cur !in st.ready
    ensures forall t :: t in st.threads && st.threads[t].status == Running ==> t == st.cur
  {
    hide SortedQueue;
  }

  lemma WeakerWait(st: State, x: Tid)
    requires Closed(st) && WaitOk(st, None)
    ensures WaitOk(st, Some(x))
  {
    hide Closed;
  }

  lemma WeakerDonor(st: State, x: Tid)
    requires Closed(st) && DonorOk(st, None)
    ensures DonorOk(st, Some(x))
  {
    hide Closed, BlockingOk, Donates;
  }

  lemma WeakerBase(st: State, x: Tid)
    requires Base(st, None)
    ensures Base(st, Some(x))
  {
    hide Closed, ReadyOk, WaitOk, LockOk, DonorOk;
    WeakerWait(st, x);
    WeakerDonor(st, x);
  }

  lemma IdleReady(st: State)
    requires Inv(st) && st.cur == st.idle
    ensures Base(SetCurrent(st, st.threads[st.cur].(status := Ready)), None)
  {
    hide WaitOk, LockOk, DonorOk;
    var w := SetCurrent(st, st.threads[st.cur].(status := Ready));
    CurrentLoose(st);
    SortedFrame(st.ready, st.threads, w.threads);
    TouchBase(st, w, st.cur, None);
  }

  /** The current thread, still running, is inside sema_down or lock_acquire on S. */
  ghost predicate Entering(st: State, s: nat) {
    && Base(st, Some(st.cur)) && st.threads[st.cur].status == Running && st.cur != st.idle
    && Waits(st.threads[st.cur].phase) && st.threads[st.cur].phase.s == s
    && (forall z :: z in st.semas ==> st.cur !in st.semas[z].waiters)
  }

  lemma EnteringFacts(st: State, s: nat)
    requires Entering(st, s)
    ensures s in st.semas && (st.threads[st.cur].phase == Acquiring(s) <==> s in st.locks)
    ensures st.threads[st.cur].blocking.Some? ==> st.threads[st.cur].phase == Acquiring(s) && st.threads[st.cur].blocking == Some(s)
    ensures st.cur !in st.ready
    ensures forall t :: t in st.threads && st.threads[t].status == Running ==> t == st.cur
    ensures s in st.holder ==> st.semas[s].value == 0
    ensures forall t :: t in st.threads && Handles(st.threads[t].phase) && st.threads[t].phase.s == s ==> st.semas[s].value == 0
  {
    hide SortedQueue;
  }

  lemma BlockWait(st: State, s: nat)
    requires Entering(st, s)
    ensures Closed(BlockOn(st, s)) && WaitOk(BlockOn(st, s), None)
  {
    hide InsertOrdered, SortedQueue, ReadyOk, LockOk, DonorOk;
  }

  lemma BlockReady(st: State, s: nat)
    requires Entering(st, s) && s in st.semas && Closed(BlockOn(st, s))
    ensures ReadyOk(BlockOn(st, s)) && forall t :: t in st.threads ==> BlockOn(st, s).threads[t].status != Running
  {
    hide InsertOrdered, WaitOk, LockOk, DonorOk;
    EnteringFacts(st, s);
    SortedFrame(st.ready, st.threads, BlockOn(st, s).threads);
  }

  lemma BlockBase(st: State, s: nat)
    requires Entering(st, s)
    ensures Base(BlockOn(st, s), None) && forall t :: t in st.threads ==> BlockOn(st, s).threads[t].status != Running
  {
    hide InsertOrdered, ReadyOk, WaitOk, LockOk, DonorOk;
    EnteringFacts(st, s);
    BlockWait(st, s);
    BlockReady(st, s);
    var w := BlockOn(st, s);
    LockFrame(st, w);
    DonorFrame(st, w, Some(st.cur));
    NowBlocked(w, st.cur);
  }

  lemma NowBlocked(st: State, t: Tid)
    requires Closed(st) && DonorOk(st, Some(t)) && t in st.threads && st.threads[t].status == Blocked
    ensures DonorOk(st, None)
  {
  }

  lemma ProceedClosed(st: State, s: nat)
    requires Closed(st) && s in st.semas && st.semas[s].value > 0 && (st.threads[st.cur].phase.Acquiring? ==> s in st.locks)
    ensures Closed(Proceed(st, s))
  {
  }

  lemma ProceedDonors(st: State, s: nat)
    requires Entering(st, s) && s in st.semas && st.semas[s].value > 0 && Closed(Proceed(st, s))
    ensures DonorOk(Proceed(st, s), None)
  {
    hide SortedQueue, ReadyOk, WaitOk, Closed;
    EnteringFacts(st, s);
    EnteringClosed(st, s);
    var w := Proceed(st, s);
    forall t, d | t in w.threads && d in w.threads[t].donors
      ensures d in w.threads && Donates(w, d, t) && w.threads[d].status == Blocked
    {
      assert d in st.threads[t].donors;
      DonorKnown(st, t, d);
      assert Donates(st, d, t);
    }
  }

  lemma DonorKnown(st: State, t: Tid, d: Tid)
    requires Closed(st) && t in st.threads && d in st.threads[t].donors
    ensures d in st.threads
  {
  }

  lemma ProceedLocks(st: State, s: nat)
    requires Entering(st, s) && s in st.semas && st.semas[s].value > 0 && Closed(Proceed(st, s))
    ensures LockOk(Proceed(st, s))
  {
    hide SortedQueue, ReadyOk, WaitOk, DonorOk;
    EnteringFacts(st, s);
    var w := Proceed(st, s);
    forall t | t in w.threads && Handles(w.threads[t].phase)
      ensures HandOver(w, t, w.threads[t].phase.s)
    {
      assert HandOver(st, t, st.threads[t].phase.s);
    }
  }

  lemma ProceedInv(st: State, s: nat)
    requires Entering(st, s) && s in st.semas && st.semas[s].value > 0
    ensures Inv(Proceed(st, s))
  {
    hide ReadyOk, WaitOk, LockOk, DonorOk;
    EnteringFacts(st, s);
    ProceedClosed(st, s);
    ProceedReady(st, s);
    ProceedWait(st, s);
    ProceedLocks(st, s);
    ProceedDonors(st, s);
  }

  lemma ProceedReady(st: State, s: nat)
    requires Entering(st, s) && s in st.semas && st.semas[s].value > 0 && Closed(Proceed(st, s))
    ensures ReadyOk(Proceed(st, s))
  {
    hide SortedQueue, WaitOk, LockOk, DonorOk, Known;
    EnteringFacts(st, s);
    SortedFrame(st.ready, st.threads, Proceed(st, s).threads);
  }

  lemma ProceedWait(st: State, s: nat)
    requires Entering(st, s) && s in st.semas && st.semas[s].value > 0 && Closed(Proceed(st, s))
    ensures WaitOk(Proceed(st, s), None)
  {
    hide SortedQueue, ReadyOk, LockOk, DonorOk;
  }

  lemma AttemptInv(st: State, s: nat)
    requires Entering(st, s) && s in st.semas
    ensures Inv(Attempt(st, s))
  {
    hide BlockOn, Proceed, Dispatch, Base;
    EnteringClosed(st, s);
    if st.semas[s].value == 0 {
      BlockBase(st, s);
      BlockKeys(st, s);
      DispatchInv(BlockOn(st, s));
    } else {
      ProceedInv(st, s);
    }
  }

  lemma EnteringClosed(st: State, s: nat)
    requires Entering(st, s)
    ensures Closed(st)
  {
  }

  lemma BlockKeys(st: State, s: nat)
    requires Closed(st) && s in st.semas
    ensures BlockOn(st, s).threads.Keys == st.threads.Keys
  {
  }

  lemma RegisterClosed(st: State, l: nat)
    requires Closed(st)
    ensures Closed(Register(st, l))
  {
    hide InsertOrdered;
  }

  /** lock_acquire by the current thread, up to where it holds the lock or blocks. */
  function Acquire(st: State, l: nat): State
    requires Closed(st) && l in st.semas
  {
    RegisterClosed(st, l);
    var asked := Register(st, l);
    if l in st.holder then
      PropagateClosed(asked, Some(l), st.threads[st.cur].priority, DONATION_DEPTH);
      Attempt(Propagate(asked, Some(l), st.threads[st.cur].priority, DONATION_DEPTH), l)
    else Attempt(asked, l)
  }

  lemma {:induction false} PropagateClosed(st: State, l: Option<nat>, p: int, fuel: nat)
    requires Closed(st)
    ensures Closed(Propagate(st, l, p, fuel)) && Donated(st, Propagate(st, l, p, fuel))
    decreases fuel
  {
    hide Raise;
    if l.Some? && fuel > 0 && l.value in st.holder && st.threads[st.holder[l.value]].priority < p {
      var h := st.holder[l.value];
      RaiseClosed(st, h, p);
      RaiseDonates(st, h, p);
      PropagateClosed(Raise(st, h, p), st.threads[h].blocking, p, fuel - 1);
    }
  }

  ghost predicate MayAcquire(st: State, l: nat) {
    && st.cur in st.threads && st.cur != st.idle && st.threads[st.cur].phase == Free
    && l in st.locks && !(l in st.holder && st.holder[l] == st.cur)
  }

  lemma RegisterKeeps(st: State, l: nat)
    requires Closed(st)
    ensures var w := Register(st, l);
      && w.cur == st.cur && w.semas == st.semas && w.threads.Keys == st.threads.Keys && w.holder == st.holder && w.locks == st.locks
      && w.ready == st.ready && w.idle == st.idle && w.clock == st.clock && w.handler == st.handler
    ensures forall t :: t in st.threads ==> SameButDonors(st.threads[t], Register(st, l).threads[t], t == st.cur)
    ensures Register(st, l).threads[st.cur].phase == Acquiring(l)
    ensures Register(st, l).threads[st.cur].blocking == if l in st.holder then Some(l) else st.threads[st.cur].blocking
    ensures forall t, d :: t in st.threads && d in Register(st, l).threads[t].donors ==>
      d in st.threads[t].donors || (d == st.cur && l in st.holder && t == st.holder[l])
    ensures forall t :: t in st.threads && !(l in st.holder && t == st.holder[l]) ==> Register(st, l).threads[t].donors == st.threads[t].donors
    ensures forall t, d :: t in st.threads && d in st.threads[t].donors ==> d in Register(st, l).threads[t].donors
  {
    hide Register, Closed;
    RegisterSame(st, l);
    RegisterLists(st, l);
  }

  lemma RegisterSame(st: State, l: nat)
    requires Closed(st)
    ensures var w := Register(st, l);
      && w.cur == st.cur && w.semas == st.semas && w.threads.Keys == st.threads.Keys && w.holder == st.holder && w.locks == st.locks
      && w.ready == st.ready && w.idle == st.idle && w.clock == st.clock && w.handler == st.handler
    ensures st.cur in st.threads && Register(st, l).threads[st.cur].phase == Acquiring(l)
    ensures Register(st, l).threads[st.cur].blocking == if l in st.holder then Some(l) else st.threads[st.cur].blocking
    ensures forall t :: t in st.threads ==> SameButDonors(st.threads[t], Register(st, l).threads[t], t == st.cur)
  {
    hide InsertOrdered;
  }

  lemma RegisterLists(st: State, l: nat)
    requires Closed(st)
    ensures Register(st, l).threads.Keys == st.threads.Keys
    ensures forall t, d :: t in st.threads && d in Register(st, l).threads[t].donors ==>
      d in st.threads[t].donors || (d == st.cur && l in st.holder && t == st.holder[l])
    ensures forall t :: t in st.threads && !(l in st.holder && t == st.holder[l]) ==> Register(st, l).threads[t].donors == st.threads[t].donors
    ensures forall t, d :: t in st.threads && d in st.threads[t].donors ==> d in Register(st, l).threads[t].donors
  {
    hide InsertOrdered;
    if l in st.holder {
      HolderKnown(st, l);
      var h := st.holder[l];
      var ts := st.threads[st.cur := st.threads[st.cur].(phase := Acquiring(l), blocking := Some(l))];
      assert forall t :: t in st.threads ==> ts[t].donors == st.threads[t].donors;
      assert forall d :: d in InsertOrdered(ts[h].donors, st.cur, ts) <==> d in st.threads[h].donors || d == st.cur;
    }
  }

  predicate SameButDonors(a: Thread, b: Thread, current: bool) {
    && b.status == a.status && b.priority == a.priority && b.base == a.base && b.stamp == a.stamp
    && (current || (b.phase == a.phase && b.blocking == a.blocking))
  }

  lemma ReadyFrame(st: State, w: State)
    requires Closed(st) && Closed(w) && ReadyOk(st) && w.threads.Keys == st.threads.Keys
    requires w.ready == st.ready && w.idle == st.idle && w.cur == st.cur && w.clock == st.clock
    requires forall t :: t in st.threads ==>
      w.threads[t].status == st.threads[t].status && w.threads[t].priority == st.threads[t].priority && w.threads[t].stamp == st.threads[t].stamp
    ensures ReadyOk(w)
  {
    hide SortedQueue;
    SortedFrame(st.ready, st.threads, w.threads);
  }

  lemma RegisterBlocking(st: State, l: nat)
    requires Closed(st) && BlockingOk(st) && st.threads[st.cur].phase == Free
    ensures BlockingOk(Register(st, l))
  {
    hide Register;
    RegisterKeeps(st, l);
  }

  lemma RegisterDonors(st: State, l: nat)
    requires Inv(st) && MayAcquire(st, l) && Closed(Register(st, l))
    ensures DonorOk(Register(st, l), Some(st.cur))
  {
    hide Closed, ReadyOk, WaitOk, LockOk, BlockingOk, Register;
    RegisterKeeps(st, l);
    RegisterBlocking(st, l);
    CurrentLoose(st);
    var w := Register(st, l);
    forall t, d | t in w.threads && d in w.threads[t].donors
      ensures d in w.threads && Donates(w, d, t) && (d == st.cur || w.threads[d].status == Blocked)
    {
      DonorKnown(w, t, d);
      if d in st.threads[t].donors {
        assert Donates(st, d, t);
      }
    }
  }

  lemma RegisterWait(st: State, l: nat)
    requires Inv(st) && MayAcquire(st, l) && Closed(Register(st, l))
    ensures WaitOk(Register(st, l), Some(st.cur))
  {
    hide ReadyOk, LockOk, DonorOk, Register;
    RegisterKeeps(st, l);
  }

  lemma RegisterLocks(st: State, l: nat)
    requires Inv(st) && MayAcquire(st, l) && Closed(Register(st, l))
    ensures LockOk(Register(st, l))
  {
    hide ReadyOk, WaitOk, DonorOk, Register;
    RegisterKeeps(st, l);
    var w := Register(st, l);
    forall t | t in w.threads && Handles(w.threads[t].phase)
      ensures HandOver(w, t, w.threads[t].phase.s)
    {
      assert HandOver(st, t, st.threads[t].phase.s);
    }
  }

  lemma RegisterEnters(st: State, l: nat)
    requires Inv(st) && MayAcquire(st, l)
    ensures Entering(Register(st, l), l)
  {
    hide ReadyOk, WaitOk, LockOk, DonorOk, Register;
    RegisterClosed(st, l);
    RegisterKeeps(st, l);
    ReadyFrame(st, Register(st, l));
    RegisterWait(st, l);
    RegisterLocks(st, l);
    RegisterDonors(st, l);
    CurrentLoose(st);
  }

  lemma AcquireInv(st: State, l: nat)
    requires Inv(st) && MayAcquire(st, l)
    ensures Inv(Acquire(st, l))
  {
    hide ReadyOk, WaitOk, LockOk, DonorOk, Register, Propagate, Attempt;
    RegisterClosed(st, l);
    RegisterEnters(st, l);
    RegisterKeeps(st, l);
    var asked := Register(st, l);
    if l in st.holder {
      var p := st.threads[st.cur].priority;
      PropagateBase(asked, Some(l), p, DONATION_DEPTH, Some(st.cur));
      AttemptInv(Propagate(asked, Some(l), p, DONATION_DEPTH), l);
    } else {
      AttemptInv(asked, l);
    }
  }

  // ----- donation by lock_acquire ---------------------------------------------------------------

  /** Only priorities, base priorities and donor lists matter for who is owed what. */
  lemma PriorityFrame(st: State, w: State, x: Option<Tid>)
    requires Closed(st) && Closed(w) && w.threads.Keys == st.threads.Keys
    requires forall t :: t in st.threads ==>
      && w.threads[t].priority == st.threads[t].priority && w.threads[t].base == st.threads[t].base
      && w.threads[t].donors == st.threads[t].donors && (w.threads[t].phase == Setting <==> st.threads[t].phase == Setting)
    ensures PriorityOk(w, x) <==> PriorityOk(st, x)
  {
  }

  lemma AttemptPriority(st: State, s: nat)
    requires Closed(st) && s in st.semas && Closed(Attempt(st, s)) && st.threads[st.cur].phase != Setting
    ensures PriorityOk(Attempt(st, s), None) <==> PriorityOk(st, None)
  {
    hide InsertOrdered, PriorityOk, Closed, Known;
    AttemptThreads(st, s);
    PriorityFrame(st, Attempt(st, s), None);
  }

  ghost predicate SamePriorities(st: State, w: State) {
    && w.threads.Keys == st.threads.Keys
    && (forall t :: t in st.threads ==>
          && w.threads[t].priority == st.threads[t].priority && w.threads[t].base == st.threads[t].base
          && w.threads[t].donors == st.threads[t].donors && (w.threads[t].phase == Setting <==> st.threads[t].phase == Setting))
  }

  /** Trying to get past a semaphore changes no priority and no donor list. */
  lemma AttemptThreads(st: State, s: nat)
    requires Closed(st) && s in st.semas && st.threads[st.cur].phase != Setting
    ensures SamePriorities(st, Attempt(st, s))
  {
    hide BlockOn, Dispatch, Proceed, SamePriorities, Closed;
    KnownReady(st);
    if st.semas[s].value == 0 {
      BlockThreads(st, s);
    } else {
      ProceedThreads(st, s);
    }
  }

  lemma BlockThreads(st: State, s: nat)
    requires Closed(st) && s in st.semas
    ensures BlockOn(st, s).idle in BlockOn(st, s).threads && Known(BlockOn(st, s).ready, BlockOn(st, s).threads)
    ensures SamePriorities(st, Dispatch(BlockOn(st, s)))
  {
    hide InsertOrdered;
  }

  lemma ProceedThreads(st: State, s: nat)
    requires Closed(st) && s in st.semas && st.semas[s].value > 0 && st.threads[st.cur].phase != Setting
    ensures SamePriorities(st, Proceed(st, s))
  {
  }

  lemma RegisterOwes(st: State, l: nat)
    requires Closed(st) && PriorityOk(st, None) && Closed(Register(st, l)) && st.threads[st.cur].phase != Setting
    ensures PriorityOk(Register(st, l), Some(st.cur))
  {
    hide Register;
    RegisterKeeps(st, l);
  }

  /** A thread of priority P is not in a chain for P, so its registration does not change the chain. */
  lemma {:induction false} ChainRegistered(st: State, w: State, l: Option<nat>, p: int, seen: set<Tid>)
    requires Closed(st) && Closed(w) && w.holder == st.holder && w.threads.Keys == st.threads.Keys
    requires forall t :: t in st.threads ==> w.threads[t].priority == st.threads[t].priority
    requires forall t :: t in st.threads && st.threads[t].priority < p ==> w.threads[t].blocking == st.threads[t].blocking
    ensures Chain(w, l, p, seen) == Chain(st, l, p, seen)
    ensures forall t :: t in Chain(st, l, p, seen) ==> st.threads[t].priority < p
    decreases st.threads.Keys - seen
  {
    hide Closed;
    if l.Some? && l.value in st.holder {
      HolderKnown(st, l.value);
      var g := st.holder[l.value];
      if g !in seen && st.threads[g].priority < p {
        ChainRegistered(st, w, st.threads[g].blocking, p, seen + {g});
      }
    }
  }

  lemma HolderKnown(st: State, l: nat)
    requires Closed(st) && l in st.holder
    ensures st.holder[l] in st.threads
  {
  }

  lemma SufficesRegistered(st: State, l: nat, chain: seq<Tid>)
    requires Closed(st) && forall t :: t in chain ==> t in st.threads && t != st.cur
    ensures forall t :: t in chain ==> t in Register(st, l).threads
    ensures Suffices(Register(st, l), st.cur, chain, DONATION_DEPTH) <==> Suffices(st, st.cur, chain, DONATION_DEPTH)
  {
    hide Register, Closed;
    RegisterKeeps(st, l);
  }

  /** After lock_acquire no thread has less priority than a listed donor if and only if the chain of
      lower-priority holders above the lock is at most DONATION_DEPTH long, or its first member
      beyond does not list the last one reached. */
  lemma AcquireExact(st: State, l: nat)
    requires Inv(st) && PriorityOk(st, None) && MayAcquire(st, l)
    ensures Closed(Acquire(st, l))
    ensures PriorityOk(Acquire(st, l), None) <==>
      (l in st.holder ==> Suffices(st, st.cur, Chain(st, Some(l), st.threads[st.cur].priority, {}), DONATION_DEPTH))
  {
    hide ReadyOk, WaitOk, LockOk, DonorOk, PriorityOk, Suffices, Register, Propagate, Attempt, Chain;
    AcquireInv(st, l);
    RegisterClosed(st, l);
    RegisterEnters(st, l);
    RegisterKeeps(st, l);
    RegisterOwes(st, l);
    var asked, p := Register(st, l), st.threads[st.cur].priority;
    if l in st.holder {
      PropagateExact(asked, st.cur, p, DONATION_DEPTH, Some(st.cur));
      PropagateClosed(asked, Some(l), p, DONATION_DEPTH);
      ChainRegistered(st, asked, Some(l), p, {});
      SufficesRegistered(st, l, Chain(st, Some(l), p, {}));
      AttemptPriority(Propagate(asked, Some(l), p, DONATION_DEPTH), l);
    } else {
      PriorityFrame(st, asked, None);
      AttemptPriority(asked, l);
    }
  }

  // ----- the other steps of the current thread ------------------------------------------------------

  /** W differs from ST in fields of the current thread, which keeps running, in semaphore values
      and in who holds or handles locks. */
  ghost predicate OnlyCurrent(st: State, w: State) {
    && st.cur in st.threads && w.cur == st.cur && w.threads.Keys == st.threads.Keys
    && (forall t :: t in st.threads && t != st.cur ==> w.threads[t] == st.threads[t])
    && w.threads[st.cur].status == Running && w.threads[st.cur].stamp == st.threads[st.cur].stamp
    && w.ready == st.ready && w.idle == st.idle && w.clock == st.clock && w.locks == st.locks
    && w.semas.Keys == st.semas.Keys && (forall s :: s in st.semas ==> w.semas[s].waiters == st.semas[s].waiters)
  }

  lemma CurrentReady(st: State, w: State)
    requires Inv(st) && OnlyCurrent(st, w) && Closed(w)
    ensures ReadyOk(w)
  {
    hide WaitOk, LockOk, DonorOk, SortedQueue;
    SortedFrame(st.ready, st.threads, w.threads);
  }

  lemma CurrentWait(st: State, w: State)
    requires Inv(st) && OnlyCurrent(st, w) && Closed(w)
    requires Waits(w.threads[st.cur].phase) ==>
      w.threads[st.cur].phase.s in st.semas && (w.threads[st.cur].phase.Acquiring? <==> w.threads[st.cur].phase.s in st.locks)
    ensures WaitOk(w, None)
  {
    hide ReadyOk, LockOk, DonorOk;
  }

  /** The donor relation after a change to the current thread, whose remaining donors are DONORS. */
  lemma CurrentDonors(st: State, w: State)
    requires Inv(st) && OnlyCurrent(st, w) && Closed(w) && w.threads[st.cur].blocking.None?
    requires forall d :: d in w.threads[st.cur].donors ==> d in st.threads[st.cur].donors && Donates(w, d, st.cur)
    requires forall l :: l in st.holder && st.holder[l] != st.cur ==> l in w.holder && w.holder[l] == st.holder[l]
    ensures DonorOk(w, None)
  {
    hide ReadyOk, WaitOk, LockOk;
    CurrentLoose(st);
    forall t, d | t in w.threads && d in w.threads[t].donors
      ensures Donates(w, d, t) && w.threads[d].status == Blocked
    {
      assert d in st.threads[t].donors;
      assert Donates(st, d, t) && d != st.cur;
    }
  }

  lemma CurrentInv(st: State, w: State)
    requires Inv(st) && OnlyCurrent(st, w) && Closed(w) && LockOk(w) && DonorOk(w, None)
    requires Waits(w.threads[st.cur].phase) ==>
      w.threads[st.cur].phase.s in st.semas && (w.threads[st.cur].phase.Acquiring? <==> w.threads[st.cur].phase.s in st.locks)
    ensures Inv(w)
  {
    hide Closed, ReadyOk, WaitOk, LockOk, DonorOk;
    CurrentReady(st, w);
    CurrentWait(st, w);
  }

  /** sema_down by the current thread. */
  function Down(st: State, s: nat): State
    requires Closed(st) && s in st.semas
  {
    var asked := SetCurrent(st, st.threads[st.cur].(phase := Downing(s)));
    Attempt(asked, s)
  }

  /** sema_try_down for lock_try_acquire. */
  function TryAcquire(st: State, l: nat): State
    requires st.cur in st.threads && l in st.semas
  {
    if st.semas[l].value > 0 then
      st.(semas := st.semas[l := st.semas[l].(value := st.semas[l].value - 1)],
          threads := st.threads[st.cur := st.threads[st.cur].(phase := Claiming(l))], handler := st.handler[l := st.cur])
    else st
  }

  /** The second half of a successful lock_try_acquire: the thread becomes the holder. */
  function Claim(st: State): State
    requires st.cur in st.threads && st.threads[st.cur].phase.Claiming?
  {
    st.(holder := st.holder[st.threads[st.cur].phase.s := st.cur],
        threads := st.threads[st.cur := st.threads[st.cur].(phase := Free)])
  }

  lemma CurrentFree(st: State)
    requires Inv(st) && !Waits(st.threads[st.cur].phase)
    ensures st.threads[st.cur].blocking.None?
  {
    hide ReadyOk, WaitOk, LockOk;
  }

  lemma HandledLocks(st: State, w: State)
    requires Inv(st) && OnlyCurrent(st, w) && Closed(w)
    requires forall t :: t in st.threads && t != st.cur && Handles(st.threads[t].phase) ==> HandOver(w, t, st.threads[t].phase.s)
    requires Handles(w.threads[st.cur].phase) ==> HandOver(w, st.cur, w.threads[st.cur].phase.s)
    requires forall l :: l in w.locks ==> w.semas[l].value <= 1
    requires forall l :: l in w.holder ==> w.semas[l].value == 0 && w.holder[l] != w.idle
    requires w.cur == w.idle ==> w.threads[w.cur].phase == Free
    ensures LockOk(w)
  {
    hide ReadyOk, WaitOk, DonorOk;
  }

  lemma TryInv(st: State, l: nat)
    requires Inv(st) && MayAcquire(st, l)
    ensures Inv(TryAcquire(st, l))
  {
    hide ReadyOk, WaitOk, DonorOk;
    var w := TryAcquire(st, l);
    if st.semas[l].value > 0 {
      CurrentFree(st);
      TryLocks(st, l);
      CurrentDonorsKept(st, w);
      CurrentInv(st, w);
    }
  }

  lemma OnlyCurrentClosed(st: State, w: State)
    requires Closed(st) && OnlyCurrent(st, w) && w.holder.Keys <= w.locks
    requires forall d :: d in w.threads[st.cur].donors ==> d in st.threads[st.cur].donors
    requires forall l :: l in w.holder ==> w.holder[l] in st.threads
    ensures Closed(w)
  {
  }

  lemma TryLocks(st: State, l: nat)
    requires Inv(st) && MayAcquire(st, l) && st.semas[l].value > 0
    ensures Closed(TryAcquire(st, l)) && LockOk(TryAcquire(st, l))
  {
    hide ReadyOk, WaitOk, DonorOk;
    var w := TryAcquire(st, l);
    OnlyCurrentClosed(st, w);
    TryHandled(st, l);
    HandledLocks(st, w);
  }

  lemma TryHandled(st: State, l: nat)
    requires Inv(st) && MayAcquire(st, l) && st.semas[l].value > 0 && Closed(TryAcquire(st, l))
    ensures forall t :: t in st.threads && t != st.cur && Handles(st.threads[t].phase) ==> HandOver(TryAcquire(st, l), t, st.threads[t].phase.s)
  {
    hide ReadyOk, WaitOk, DonorOk;
    forall t | t in st.threads && t != st.cur && Handles(st.threads[t].phase)
      ensures HandOver(TryAcquire(st, l), t, st.threads[t].phase.s)
    {
      assert HandOver(st, t, st.threads[t].phase.s);
    }
  }

  lemma CurrentDonorsKept(st: State, w: State)
    requires Inv(st) && OnlyCurrent(st, w) && Closed(w) && w.threads[st.cur].blocking.None?
    requires w.threads[st.cur].donors == st.threads[st.cur].donors
    requires forall l :: l in st.holder ==> l in w.holder && w.holder[l] == st.holder[l]
    ensures DonorOk(w, None)
  {
    hide ReadyOk, WaitOk, LockOk;
    CurrentLoose(st);
    forall d | d in w.threads[st.cur].donors
      ensures Donates(w, d, st.cur)
    {
      assert Donates(st, d, st.cur);
    }
    CurrentDonors(st, w);
  }

  lemma ClaimHandled(st: State)
    requires Inv(st) && st.threads[st.cur].phase.Claiming? && Closed(Claim(st))
    ensures forall t :: t in st.threads && t != st.cur && Handles(st.threads[t].phase) ==> HandOver(Claim(st), t, st.threads[t].phase.s)
    ensures st.threads[st.cur].phase.s in st.locks && st.threads[st.cur].phase.s !in st.holder && st.semas[st.threads[st.cur].phase.s].value == 0
    ensures st.cur != st.idle
  {
    hide ReadyOk, WaitOk, DonorOk;
    assert HandOver(st, st.cur, st.threads[st.cur].phase.s);
    forall t | t in st.threads && t != st.cur && Handles(st.threads[t].phase)
      ensures HandOver(Claim(st), t, st.threads[t].phase.s)
    {
      assert HandOver(st, t, st.threads[t].phase.s);
    }
  }

  lemma ClaimInv(st: State)
    requires Inv(st) && st.threads[st.cur].phase.Claiming?
    ensures Inv(Claim(st))
  {
    hide ReadyOk, WaitOk, DonorOk;
    var w := Claim(st);
    assert HandOver(st, st.cur, st.threads[st.cur].phase.s);
    OnlyCurrentClosed(st, w);
    ClaimHandled(st);
    HandledLocks(st, w);
    CurrentFree(st);
    CurrentDonorsKept(st, w);
    CurrentInv(st, w);
  }

  // ----- releasing ------------------------------------------------------------------------------

  /** The donors in Q that do not wait for L. */
  function NotFor(q: seq<Tid>, l: nat, ts: map<Tid, Thread>): (r: seq<Tid>)
    requires Known(q, ts)
    ensures forall d :: d in r <==> d in q && ts[d].blocking != Some(l)
  {
    if q == [] then []
    else if ts[q[0]].blocking == Some(l) then NotFor(q[1..], l, ts)
    else [q[0]] + NotFor(q[1..], l, ts)
  }

  /** thread_update_priority: the maximum of a thread's own priority and its donors'. */
  function Effective(base: int, donors: seq<Tid>, ts: map<Tid, Thread>): (p: int)
    requires Known(donors, ts)
    ensures p >= base && forall d :: d in donors ==> p >= ts[d].priority
    ensures p == base || exists d :: d in donors && ts[d].priority == p
  {
    if donors == [] then base
    else
      var m := FirstMax(donors, ts);
      if ts[m].priority > base then ts[m].priority else base
  }

  /** The first half of lock_release, with interrupts off. */
  function Release(st: State, l: nat): State
    requires Closed(st)
  {
    var me := st.threads[st.cur];
    var left := NotFor(me.donors, l, st.threads);
    st.(holder := st.holder - {l}, handler := st.handler[l := st.cur],
        threads := st.threads[st.cur := me.(donors := left, phase := Releasing(l), priority := Effective(me.base, left, st.threads))])
  }

  lemma ReleaseHandled(st: State, l: nat)
    requires Inv(st) && l in st.holder && st.holder[l] == st.cur && Closed(Release(st, l))
    ensures forall t :: t in st.threads && t != st.cur && Handles(st.threads[t].phase) ==> HandOver(Release(st, l), t, st.threads[t].phase.s)
    ensures HandOver(Release(st, l), st.cur, l)
  {
    hide ReadyOk, WaitOk, DonorOk, NotFor, Effective;
    forall t | t in st.threads && t != st.cur && Handles(st.threads[t].phase)
      ensures HandOver(Release(st, l), t, st.threads[t].phase.s)
    {
      assert HandOver(st, t, st.threads[t].phase.s);
    }
  }

  lemma ReleaseInv(st: State, l: nat)
    requires Inv(st) && st.threads[st.cur].phase == Free && l in st.holder && st.holder[l] == st.cur
    ensures Inv(Release(st, l))
  {
    hide ReadyOk, WaitOk, NotFor, Effective, Donates, BlockingOk;
    var w := Release(st, l);
    OnlyCurrentClosed(st, w);
    ReleaseHandled(st, l);
    HandledLocks(st, w);
    CurrentFree(st);
    ReleaseDonors(st, l);
    CurrentInv(st, w);
  }

  lemma ReleaseDonors(st: State, l: nat)
    requires Inv(st) && st.threads[st.cur].blocking.None? && l in st.holder && st.holder[l] == st.cur && Closed(Release(st, l))
    requires OnlyCurrent(st, Release(st, l))
    ensures DonorOk(Release(st, l), None)
  {
    hide ReadyOk, WaitOk, LockOk, NotFor, Effective;
    var w := Release(st, l);
    CurrentLoose(st);
    forall d | d in w.threads[st.cur].donors
      ensures Donates(w, d, st.cur)
    {
      assert Donates(st, d, st.cur);
    }
    CurrentDonors(st, w);
  }

  // ----- sema_up --------------------------------------------------------------------------------

  /** sema_up increments the value; a lock being released is thereby handed over. */
  function Post(st: State, s: nat): State
    requires st.cur in st.threads && s in st.semas
  {
    var me := st.threads[st.cur];
    st.(semas := st.semas[s := st.semas[s].(value := st.semas[s].value + 1)],
        threads := st.threads[st.cur := if me.phase == Releasing(s) then me.(phase := Free) else me])
  }

  /** sema_up takes the highest waiter off the list of S. */
  function Unlisted(st: State, s: nat): State
    requires Closed(st) && s in st.semas && st.semas[s].waiters != []
  {
    var q := st.semas[s].waiters;
    st.(semas := st.semas[s := st.semas[s].(waiters := Without(q, FirstMax(q, st.threads)))])
  }

  /** sema_up; in interrupt context it does not yield. */
  function Up(st: State, s: nat, interrupt: bool): State
    requires Closed(st) && s in st.semas
  {
    var posted := Post(st, s);
    if posted.semas[s].waiters == [] then posted
    else
      var m := FirstMax(posted.semas[s].waiters, posted.threads);
      var woken := Enqueue(Unlisted(posted, s), m);
      if woken.threads[m].priority > woken.threads[woken.cur].priority && !interrupt then
        EnqueueClosed(Unlisted(posted, s), m);
        Yield(woken)
      else woken
  }

  lemma EnqueueClosed(st: State, t: Tid)
    requires Closed(st) && t in st.threads
    ensures Closed(Enqueue(st, t))
  {
    hide InsertOrdered;
  }

  ghost predicate MayPost(st: State, s: nat, interrupt: bool) {
    && st.cur in st.threads && s in st.semas
    && (if s in st.locks then st.threads[st.cur].phase == Releasing(s) && !interrupt
        else if interrupt then !Waits(st.threads[st.cur].phase) else st.threads[st.cur].phase == Free)
  }

  lemma PostHandled(st: State, s: nat)
    requires Inv(st) && s in st.semas && (s in st.locks ==> st.threads[st.cur].phase == Releasing(s)) && Closed(Post(st, s))
    ensures forall t :: t in st.threads && t != st.cur && Handles(st.threads[t].phase) ==> HandOver(Post(st, s), t, st.threads[t].phase.s)
    ensures Handles(Post(st, s).threads[st.cur].phase) ==> HandOver(Post(st, s), st.cur, Post(st, s).threads[st.cur].phase.s)
    ensures s in st.locks ==> s !in st.holder && st.semas[s].value == 0
  {
    hide ReadyOk, WaitOk, DonorOk;
    assert Handles(st.threads[st.cur].phase) ==> HandOver(st, st.cur, st.threads[st.cur].phase.s);
    forall t | t in st.threads && t != st.cur && Handles(st.threads[t].phase)
      ensures HandOver(Post(st, s), t, st.threads[t].phase.s)
    {
      assert HandOver(st, t, st.threads[t].phase.s);
    }
  }

  lemma PostInv(st: State, s: nat)
    requires Inv(st) && s in st.semas && !Waits(st.threads[st.cur].phase) && (s in st.locks ==> st.threads[st.cur].phase == Releasing(s))
    ensures Inv(Post(st, s)) && (s in st.locks ==> s !in st.holder)
  {
    hide ReadyOk, WaitOk, DonorOk;
    var w := Post(st, s);
    OnlyCurrentClosed(st, w);
    PostHandled(st, s);
    HandledLocks(st, w);
    CurrentFree(st);
    CurrentDonorsKept(st, w);
    CurrentInv(st, w);
  }

  /** The highest waiter, once off its wait list, is on no list at all. */
  lemma WaiterLoose(st: State, s: nat)
    requires Inv(st) && s in st.semas && st.semas[s].waiters != [] && s !in st.holder
    ensures Loose(Unlisted(st, s), FirstMax(st.semas[s].waiters, st.threads))
  {
    hide FirstMax, Without, SortedQueue, LockOk;
    var m := FirstMax(st.semas[s].waiters, st.threads);
    WaiterNotIdle(st, s, m);
    forall u | u in st.threads
      ensures m !in st.threads[u].donors
    {
      assert m in st.threads[u].donors ==> Donates(st, m, u);
    }
  }

  lemma WaiterNotIdle(st: State, s: nat, m: Tid)
    requires Inv(st) && s in st.semas && m in st.semas[s].waiters
    ensures m != st.idle
  {
    hide ReadyOk, DonorOk;
  }

  lemma UnlistedWait(st: State, s: nat)
    requires Inv(st) && s in st.semas && st.semas[s].waiters != []
    ensures Closed(Unlisted(st, s)) && WaitOk(Unlisted(st, s), Some(FirstMax(st.semas[s].waiters, st.threads)))
  {
    hide FirstMax, Without, ReadyOk, LockOk, DonorOk;
  }

  lemma WakenInv(st: State, s: nat)
    requires Inv(st) && s in st.semas && st.semas[s].waiters != [] && s !in st.holder
    ensures var m := FirstMax(st.semas[s].waiters, st.threads);
      Inv(Enqueue(Unlisted(st, s), m)) && Enqueue(Unlisted(st, s), m).cur == st.cur
  {
    hide FirstMax, Without, Enqueue, ReadyOk, WaitOk, LockOk, DonorOk;
    var m := FirstMax(st.semas[s].waiters, st.threads);
    var w := Unlisted(st, s);
    UnlistedWait(st, s);
    WaiterLoose(st, s);
    ReadyFrame(st, w);
    LockFrame(st, w);
    WeakerDonor(st, m);
    DonorFrame(st, w, Some(m));
    EnqueueBase(w, m);
    EnqueueTouches(w, m);
    WaiterBlocked(st, s, m);
    EnqueueCur(w, m);
  }

  lemma EnqueueCur(st: State, t: Tid)
    requires t in st.threads && Known(st.ready, st.threads)
    ensures Enqueue(st, t).cur == st.cur
  {
  }

  lemma WaiterBlocked(st: State, s: nat, m: Tid)
    requires Inv(st) && s in st.semas && m in st.semas[s].waiters
    ensures m != st.cur
  {
    hide ReadyOk, LockOk, DonorOk;
  }

  lemma UpInv(st: State, s: nat, interrupt: bool)
    requires Inv(st) && MayPost(st, s, interrupt)
    ensures Inv(Up(st, s, interrupt))
  {
    hide FirstMax, Enqueue, Without, Yield, Base;
    PostInv(st, s);
    var posted := Post(st, s);
    InvClosed(posted);
    HolderKeys(st);
    if posted.semas[s].waiters != [] {
      WakenInv(posted, s);
      var woken := Enqueue(Unlisted(posted, s), FirstMax(posted.semas[s].waiters, posted.threads));
      YieldInv(woken);
    }
  }

  lemma InvClosed(st: State)
    requires Inv(st)
    ensures Closed(st)
  {
  }

  lemma HolderKeys(st: State)
    requires Inv(st)
    ensures forall l :: l in st.holder ==> l in st.locks
  {
    hide ReadyOk, WaitOk, LockOk, DonorOk;
  }

  // ----- the remaining steps --------------------------------------------------------------------

  lemma DownInv(st: State, s: nat)
    requires Inv(st) && st.cur != st.idle && st.threads[st.cur].phase == Free && s in st.semas && s !in st.locks
    ensures Inv(Down(st, s))
  {
    hide Base, Closed, Attempt;
    DownEnters(st, s);
    InvClosed(st);
    AttemptInv(SetCurrent(st, st.threads[st.cur].(phase := Downing(s))), s);
  }

  lemma DownEnters(st: State, s: nat)
    requires Inv(st) && st.cur != st.idle && st.threads[st.cur].phase == Free && s in st.semas && s !in st.locks
    ensures Entering(SetCurrent(st, st.threads[st.cur].(phase := Downing(s))), s)
  {
    hide ReadyOk, WaitOk, LockOk, DonorOk;
    var w := SetCurrent(st, st.threads[st.cur].(phase := Downing(s)));
    OnlyCurrentClosed(st, w);
    CurrentFree(st);
    DownLocks(st, s);
    CurrentDonorsKept(st, w);
    CurrentInv(st, w);
    CurrentLoose(w);
    WeakerBase(w, w.cur);
  }

  lemma DownLocks(st: State, s: nat)
    requires Inv(st) && st.cur != st.idle && st.threads[st.cur].phase == Free
    requires Closed(SetCurrent(st, st.threads[st.cur].(phase := Downing(s))))
    ensures LockOk(SetCurrent(st, st.threads[st.cur].(phase := Downing(s))))
  {
    hide ReadyOk, WaitOk, DonorOk;
    var w := SetCurrent(st, st.threads[st.cur].(phase := Downing(s)));
    forall t | t in st.threads && t != st.cur && Handles(st.threads[t].phase)
      ensures HandOver(w, t, st.threads[t].phase.s)
    {
      assert HandOver(st, t, st.threads[t].phase.s);
    }
    HandledLocks(st, w);
  }

  /** A thread woken inside sema_down or lock_acquire runs again and looks at the value once more. */
  function Resume(st: State): State
    requires Closed(st) && Waits(st.threads[st.cur].phase) && st.threads[st.cur].phase.s in st.semas
  {
    Attempt(st, st.threads[st.cur].phase.s)
  }

  lemma ResumeInv(st: State)
    requires Inv(st) && Waits(st.threads[st.cur].phase)
    ensures st.threads[st.cur].phase.s in st.semas && Inv(Resume(st))
  {
    hide ReadyOk, DonorOk, Attempt;
    CurrentLoose(st);
    WeakerBase(st, st.cur);
    AttemptInv(st, st.threads[st.cur].phase.s);
  }

  /** thread_set_priority stores the new base priority; interrupts are on. */
  function SetBase(st: State, base: int): State
    requires st.cur in st.threads
  {
    SetCurrent(st, st.threads[st.cur].(base := base, phase := Setting))
  }

  /** thread_update_priority for the current thread. */
  function Update(st: State): State
    requires Closed(st)
  {
    var me := st.threads[st.cur];
    SetCurrent(st, me.(priority := Effective(me.base, me.donors, st.threads), phase := Passing))
  }

  /** thread_propagate_priority for the current thread. */
  function PassOn(st: State): State
    requires Closed(st)
  {
    var me := st.threads[st.cur];
    PropagateClosed(st, me.blocking, me.priority, DONATION_DEPTH);
    var donated := Propagate(st, me.blocking, me.priority, DONATION_DEPTH);
    SetCurrent(donated, donated.threads[st.cur].(phase := Comparing))
  }

  /** The running thread compares itself with the front of the ready list. */
  function Compare(st: State): State
    requires Closed(st)
  {
    var me := st.threads[st.cur];
    SetCurrent(st, me.(phase := if st.ready != [] && me.priority < st.threads[st.ready[0]].priority then Yielding else Free))
  }

  /** And yields, if it has less. */
  function YieldOwn(st: State): State
    requires Closed(st)
  {
    SetCurrentClosed(st, st.threads[st.cur].(phase := Free));
    Yield(SetCurrent(st, st.threads[st.cur].(phase := Free)))
  }

  /** thread_set_priority for the current thread, if nothing interrupts it. */
  function SetPriority(st: State, base: int): State
    requires Closed(st)
  {
    var me := st.threads[st.cur];
    SetCurrentClosed(st, me.(base := base, phase := Setting));
    UpdateClosed(SetBase(st, base));
    PassClosed(Update(SetBase(st, base)));
    var w := PassOn(Update(SetBase(st, base)));
    SetCurrentClosed(w, Compare(w).threads[w.cur]);
    if Compare(w).threads[w.cur].phase == Yielding then YieldOwn(Compare(w)) else Compare(w)
  }

  lemma SetCurrentClosed(st: State, me: Thread)
    requires Closed(st) && Known(me.donors, st.threads)
    ensures Closed(SetCurrent(st, me))
  {
  }

  lemma UpdateClosed(st: State)
    requires Closed(st)
    ensures Closed(Update(st))
  {
    hide Effective;
  }

  lemma PassClosed(st: State)
    requires Closed(st)
    ensures Closed(PassOn(st))
  {
    hide Propagate;
    var me := st.threads[st.cur];
    PropagateClosed(st, me.blocking, me.priority, DONATION_DEPTH);
  }

  /** Changing only the own priority, base priority and phase to another that is not on a lock. */
  lemma OwnInv(st: State, me: Thread)
    requires Inv(st) && !Waits(st.threads[st.cur].phase) && st.cur != st.idle && !Waits(me.phase) && !Handles(me.phase)
    requires me == st.threads[st.cur].(priority := me.priority, base := me.base, phase := me.phase)
    ensures Inv(SetCurrent(st, me))
  {
    hide ReadyOk, WaitOk, LockOk, DonorOk;
    var w := SetCurrent(st, me);
    OnlyCurrentClosed(st, w);
    CurrentFree(st);
    OwnLocks(st, me);
    CurrentDonorsKept(st, w);
    CurrentInv(st, w);
  }

  lemma OwnLocks(st: State, me: Thread)
    requires Closed(st) && LockOk(st) && Closed(SetCurrent(st, me)) && !Handles(me.phase) && st.cur != st.idle
    ensures LockOk(SetCurrent(st, me))
  {
    var w := SetCurrent(st, me);
    forall t | t in w.threads && Handles(w.threads[t].phase)
      ensures HandOver(w, t, w.threads[t].phase.s)
    {
      assert HandOver(st, t, st.threads[t].phase.s);
    }
  }

  lemma NotIdle(st: State)
    requires Inv(st) && st.threads[st.cur].phase != Free
    ensures st.cur != st.idle
  {
    hide ReadyOk, WaitOk, DonorOk;
  }

  lemma SetBaseInv(st: State, base: int)
    requires Inv(st) && st.threads[st.cur].phase == Free && st.cur != st.idle
    ensures Inv(SetBase(st, base))
  {
    hide ReadyOk, WaitOk, LockOk, DonorOk;
    OwnInv(st, SetBase(st, base).threads[st.cur]);
  }

  lemma UpdateInv(st: State)
    requires Inv(st) && st.threads[st.cur].phase == Setting
    ensures Inv(Update(st))
  {
    hide ReadyOk, WaitOk, LockOk, DonorOk, Effective;
    NotIdle(st);
    OwnInv(st, Update(st).threads[st.cur]);
  }

  /** A running thread waits for no lock, so there is nobody to pass its priority on to. */
  lemma PassIs(st: State)
    requires Inv(st) && st.threads[st.cur].phase == Passing
    ensures PassOn(st) == SetCurrent(st, st.threads[st.cur].(phase := Comparing))
  {
    hide ReadyOk, WaitOk, LockOk, DonorOk;
    CurrentFree(st);
  }

  lemma PassInv(st: State)
    requires Inv(st) && st.threads[st.cur].phase == Passing
    ensures Inv(PassOn(st))
  {
    hide ReadyOk, WaitOk, LockOk, DonorOk, PassOn;
    PassIs(st);
    NotIdle(st);
    OwnInv(st, PassOn(st).threads[st.cur]);
  }

  lemma CompareInv(st: State)
    requires Inv(st) && st.threads[st.cur].phase == Comparing
    ensures Inv(Compare(st))
  {
    hide ReadyOk, WaitOk, LockOk, DonorOk;
    NotIdle(st);
    OwnInv(st, Compare(st).threads[st.cur]);
  }

  lemma YieldOwnInv(st: State)
    requires Inv(st) && st.threads[st.cur].phase == Yielding
    ensures Inv(YieldOwn(st))
  {
    hide ReadyOk, WaitOk, LockOk, DonorOk, Yield;
    NotIdle(st);
    var w := SetCurrent(st, st.threads[st.cur].(phase := Free));
    OwnInv(st, st.threads[st.cur].(phase := Free));
    YieldInv(w);
  }

  /** timer_sleep, or the idle loop: the current thread blocks without joining a wait list. */
  function Sleep(st: State): State
    requires Closed(st)
  {
    Dispatch(SetCurrent(st, st.threads[st.cur].(status := Blocked)))
  }

  lemma SleepInv(st: State)
    requires Inv(st) && st.threads[st.cur].phase == Free
    ensures Inv(Sleep(st))
  {
    hide Dispatch, ReadyOk, WaitOk, LockOk, DonorOk;
    var w := SetCurrent(st, st.threads[st.cur].(status := Blocked));
    CurrentLoose(st);
    SleepWait(st);
    SleepReady(st);
    LockFrame(st, w);
    DonorFrame(st, w, None);
    DispatchInv(w);
  }

  lemma SleepReady(st: State)
    requires Inv(st) && Closed(SetCurrent(st, st.threads[st.cur].(status := Blocked)))
    ensures ReadyOk(SetCurrent(st, st.threads[st.cur].(status := Blocked)))
  {
    hide SortedQueue, WaitOk, LockOk, DonorOk;
    SortedFrame(st.ready, st.threads, SetCurrent(st, st.threads[st.cur].(status := Blocked)).threads);
  }

  lemma SleepWait(st: State)
    requires Inv(st) && st.threads[st.cur].phase == Free
    ensures Closed(SetCurrent(st, st.threads[st.cur].(status := Blocked)))
    ensures WaitOk(SetCurrent(st, st.threads[st.cur].(status := Blocked)), None)
  {
    hide ReadyOk, LockOk, DonorOk;
  }

  /** The timer interrupt unblocks T, which was asleep. */
  lemma WakeInv(st: State, t: Tid)
    requires Inv(st) && t in st.threads && t != st.idle && st.threads[t].status == Blocked && st.threads[t].phase == Free
    ensures Inv(Enqueue(st, t))
  {
    hide Enqueue, WaitOk, LockOk, DonorOk;
    SleeperLoose(st, t);
    WeakerBase(st, t);
    EnqueueBase(st, t);
    EnqueueTouches(st, t);
    EnqueueCur(st, t);
  }

  lemma SleeperLoose(st: State, t: Tid)
    requires Inv(st) && t in st.threads && t != st.idle && st.threads[t].status == Blocked && st.threads[t].phase == Free
    ensures Loose(st, t)
  {
    hide LockOk, SortedQueue;
    forall u | u in st.threads
      ensures t !in st.threads[u].donors
    {
      assert t in st.threads[u].donors ==> Donates(st, t, u);
    }
  }

  /** thread_create, before the new thread is unblocked. */
  function New(st: State, t: Tid, priority: int): State {
    st.(threads := st.threads[t := Thread(Blocked, priority, priority, [], None, Free, 0)])
  }

  lemma NewClosed(st: State, t: Tid, priority: int)
    requires Closed(st) && t !in st.threads
    ensures Closed(New(st, t, priority))
  {
  }

  lemma NewReady(st: State, t: Tid, priority: int)
    requires Inv(st) && t !in st.threads && Closed(New(st, t, priority))
    ensures ReadyOk(New(st, t, priority))
  {
    hide WaitOk, LockOk, DonorOk, SortedQueue;
    SortedFrame(st.ready, st.threads, New(st, t, priority).threads);
  }

  lemma NewLocks(st: State, t: Tid, priority: int)
    requires Closed(st) && LockOk(st) && t !in st.threads && Closed(New(st, t, priority))
    ensures LockOk(New(st, t, priority))
  {
    var w := New(st, t, priority);
    forall u | u in w.threads && Handles(w.threads[u].phase)
      ensures HandOver(w, u, w.threads[u].phase.s)
    {
      assert HandOver(st, u, st.threads[u].phase.s);
    }
  }

  lemma NewDonors(st: State, t: Tid, priority: int)
    requires Closed(st) && DonorOk(st, None) && t !in st.threads && Closed(New(st, t, priority))
    ensures DonorOk(New(st, t, priority), None)
  {
    var w := New(st, t, priority);
    forall u, d | u in w.threads && d in w.threads[u].donors
      ensures Donates(w, d, u) && w.threads[d].status == Blocked
    {
      assert d in st.threads[u].donors && Donates(st, d, u);
    }
  }

  lemma NewWait(st: State, t: Tid, priority: int)
    requires Closed(st) && WaitOk(st, None) && t !in st.threads && Closed(New(st, t, priority))
    ensures WaitOk(New(st, t, priority), None)
  {
  }

  lemma NewInv(st: State, t: Tid, priority: int)
    requires Inv(st) && t !in st.threads
    ensures Inv(New(st, t, priority))
  {
    hide ReadyOk, WaitOk, LockOk, DonorOk;
    NewClosed(st, t, priority);
    NewReady(st, t, priority);
    NewWait(st, t, priority);
    NewLocks(st, t, priority);
    NewDonors(st, t, priority);
  }

  /** thread_create up to thread_unblock: the new thread becomes ready. */
  function Create(st: State, t: Tid, priority: int): State
    requires Closed(st) && t !in st.threads
  {
    NewClosed(st, t, priority);
    var w := Enqueue(New(st, t, priority), t);
    SetCurrent(w, w.threads[w.cur].(phase := Starting(t)))
  }

  /** The rest of thread_create: the creator yields if the new thread is HIGHER. */
  function Start(st: State, higher: bool): State
    requires Closed(st)
  {
    SetCurrentClosed(st, st.threads[st.cur].(phase := Free));
    var w := SetCurrent(st, st.threads[st.cur].(phase := Free));
    if higher then Yield(w) else w
  }

  lemma CreateInv(st: State, t: Tid, priority: int)
    requires Inv(st) && t !in st.threads && st.cur != st.idle && st.threads[st.cur].phase == Free
    ensures Inv(Create(st, t, priority))
  {
    hide ReadyOk, WaitOk, LockOk, DonorOk, Enqueue;
    NewInv(st, t, priority);
    var w := New(st, t, priority);
    WakeInv(w, t);
    EnqueueTouches(w, t);
    EnqueueCur(w, t);
    OwnInv(Enqueue(w, t), Enqueue(w, t).threads[st.cur].(phase := Starting(t)));
  }

  lemma StartInv(st: State, higher: bool)
    requires Inv(st) && st.threads[st.cur].phase.Starting?
    ensures Inv(Start(st, higher))
  {
    hide ReadyOk, WaitOk, LockOk, DonorOk, Yield;
    NotIdle(st);
    OwnInv(st, st.threads[st.cur].(phase := Free));
    YieldInv(SetCurrent(st, st.threads[st.cur].(phase := Free)));
  }

  /** thread_exit by a thread that holds no lock. */
  function Exit(st: State): State
    requires Closed(st) && st.cur != st.idle && st.cur !in st.ready
  {
    Dispatch(Gone(st))
  }

  function Gone(st: State): State {
    st.(threads := st.threads - {st.cur}, cur := st.idle)
  }

  ghost predicate MayExit(st: State) {
    && st.cur in st.threads && st.cur != st.idle && st.threads[st.cur].phase == Free
    && (forall l :: l in st.holder ==> st.holder[l] != st.cur)
  }

  lemma GoneClosed(st: State)
    requires Inv(st) && MayExit(st)
    ensures Closed(Gone(st)) && forall t :: t in Gone(st).threads ==> Gone(st).threads[t].status != Running
  {
    hide SortedQueue, LockOk, BlockingOk;
  }

  lemma GoneReady(st: State)
    requires Inv(st) && MayExit(st) && Closed(Gone(st))
    ensures ReadyOk(Gone(st))
  {
    hide WaitOk, LockOk, DonorOk, SortedQueue;
    SortedFrame(st.ready, st.threads, Gone(st).threads);
  }

  lemma GoneDonors(st: State)
    requires Inv(st) && MayExit(st) && Closed(Gone(st))
    ensures DonorOk(Gone(st), None)
  {
    hide ReadyOk, WaitOk, LockOk;
    var w := Gone(st);
    forall u, d | u in w.threads && d in w.threads[u].donors
      ensures Donates(w, d, u) && w.threads[d].status == Blocked
    {
      assert d in st.threads[u].donors && Donates(st, d, u);
    }
  }

  lemma GoneLocks(st: State)
    requires Inv(st) && MayExit(st) && Closed(Gone(st))
    ensures LockOk(Gone(st))
  {
    hide ReadyOk, WaitOk, DonorOk;
    var w := Gone(st);
    forall u | u in w.threads && Handles(w.threads[u].phase)
      ensures HandOver(w, u, w.threads[u].phase.s)
    {
      assert HandOver(st, u, st.threads[u].phase.s);
    }
  }

  lemma GoneWait(st: State)
    requires Inv(st) && MayExit(st) && Closed(Gone(st))
    ensures WaitOk(Gone(st), None)
  {
    hide ReadyOk, LockOk, DonorOk;
  }

  lemma ExitInv(st: State)
    requires Inv(st) && MayExit(st)
    ensures st.cur !in st.ready && Inv(Exit(st))
  {
    hide ReadyOk, WaitOk, LockOk, DonorOk, Gone;
    CurrentLoose(st);
    GoneClosed(st);
    GoneReady(st);
    GoneWait(st);
    GoneLocks(st);
    GoneDonors(st);
    DispatchInv(Gone(st));
  }
}
