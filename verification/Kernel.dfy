/** The scheduler as the kernel runs it: fields changed step by step, and the loops over its lists.
    Every method does what the corresponding step of the machine does. */
module KernelThreads {
  import opened Options
  import Preemption
  import opened Scheduling
  import SchedulerRuns

  /** The loop of list_insert_ordered: the place before the first element X goes in front of. */
  method OrderedPosition(q: seq<Tid>, x: Tid, ts: map<Tid, Thread>) returns (i: nat)
    requires x in ts && Known(q, ts)
    ensures i <= |q| && InsertOrdered(q, x, ts) == q[..i] + [x] + q[i..]
  {
    hide InsertOrdered;
    i := 0;
    assert q[..0] + InsertOrdered(q[0..], x, ts) == InsertOrdered(q, x, ts) by { assert q[0..] == q; }
    while i < |q| && ts[x].priority <= ts[q[i]].priority
      invariant i <= |q| && InsertOrdered(q, x, ts) == q[..i] + InsertOrdered(q[i..], x, ts)
    {
      InsertPast(q, i, x, ts);
      i := i + 1;
    }
    InsertHere(q[i..], x, ts);
    assert q[..i] + ([x] + q[i..]) == q[..i] + [x] + q[i..];
  }

  lemma InsertHere(q: seq<Tid>, x: Tid, ts: map<Tid, Thread>)
    requires x in ts && Known(q, ts) && (q == [] || ts[x].priority > ts[q[0]].priority)
    ensures InsertOrdered(q, x, ts) == [x] + q
  {
  }

  lemma InsertPast(q: seq<Tid>, i: nat, x: Tid, ts: map<Tid, Thread>)
    requires x in ts && Known(q, ts) && i < |q| && ts[x].priority <= ts[q[i]].priority
    ensures q[..i] + InsertOrdered(q[i..], x, ts) == q[..i + 1] + InsertOrdered(q[i + 1..], x, ts)
  {
    hide InsertOrdered;
    InsertAfter(q[i..], x, ts);
    assert q[i..][1..] == q[i + 1..];
    Regroup(q, i, InsertOrdered(q[i + 1..], x, ts));
  }

  lemma InsertAfter(q: seq<Tid>, x: Tid, ts: map<Tid, Thread>)
    requires x in ts && Known(q, ts) && q != [] && ts[x].priority <= ts[q[0]].priority
    ensures InsertOrdered(q, x, ts) == [q[0]] + InsertOrdered(q[1..], x, ts)
  {
  }

  /** The loop of list_max: the first among the highest. */
  method ListMax(q: seq<Tid>, ts: map<Tid, Thread>) returns (m: Tid)
    requires q != [] && Known(q, ts)
    ensures m == FirstMax(q, ts)
  {
    m := q[0];
    var i := 1;
    while i < |q|
      invariant 1 <= i <= |q| && m == FirstMax(q[..i], ts)
    {
      assert q[..i + 1][..i] == q[..i];
      if ts[m].priority < ts[q[i]].priority {
        m := q[i];
      }
      i := i + 1;
    }
    assert q[..i] == q;
  }

  /** The loop of lock_release over the donor list. */
  method DropDonors(q: seq<Tid>, l: nat, ts: map<Tid, Thread>) returns (left: seq<Tid>)
    requires Known(q, ts)
    ensures left == NotFor(q, l, ts)
  {
    hide NotFor;
    left := q;
    var i := 0;
    assert left[..0] == [] && left[0..] == left && [] + NotFor(q, l, ts) == NotFor(q, l, ts);
    while i < |left|
      invariant i <= |left| && Known(left, ts)
      invariant NotFor(q, l, ts) == left[..i] + NotFor(left[i..], l, ts)
      decreases |left| - i
    {
      NotForStep(left, i, l, ts);
      if ts[left[i]].blocking == Some(l) {
        Cut(left, i);
        left := left[..i] + left[i + 1..];
      } else {
        i := i + 1;
      }
    }
    NotForNone(left[i..], l, ts);
    assert left[..i] + [] == left;
  }

  lemma Cut(q: seq<Tid>, i: nat)
    requires i < |q|
    ensures var r := q[..i] + q[i + 1..]; r[..i] == q[..i] && r[i..] == q[i + 1..]
  {
  }

  lemma NotForNone(q: seq<Tid>, l: nat, ts: map<Tid, Thread>)
    requires q == []
    ensures NotFor(q, l, ts) == []
  {
  }

  lemma NotForFront(q: seq<Tid>, l: nat, ts: map<Tid, Thread>)
    requires Known(q, ts) && q != []
    ensures NotFor(q, l, ts) == (if ts[q[0]].blocking == Some(l) then [] else [q[0]]) + NotFor(q[1..], l, ts)
  {
  }

  lemma NotForStep(q: seq<Tid>, i: nat, l: nat, ts: map<Tid, Thread>)
    requires Known(q, ts) && i < |q|
    ensures ts[q[i]].blocking == Some(l) ==> NotFor(q[i..], l, ts) == NotFor(q[i + 1..], l, ts)
    ensures ts[q[i]].blocking != Some(l) ==> q[..i] + NotFor(q[i..], l, ts) == q[..i + 1] + NotFor(q[i + 1..], l, ts)
  {
    hide NotFor;
    NotForFront(q[i..], l, ts);
    assert q[i..][1..] == q[i + 1..];
    Regroup(q, i, NotFor(q[i + 1..], l, ts));
    assert [] + NotFor(q[i + 1..], l, ts) == NotFor(q[i + 1..], l, ts);
  }

  lemma Regroup(q: seq<Tid>, i: nat, rest: seq<Tid>)
    requires i < |q|
    ensures q[..i] + ([q[i]] + rest) == q[..i + 1] + rest
  {
  }

  class Kernel {
    var threads: map<Tid, Thread>
    var semas: map<nat, Sema>
    var holder: map<nat, Tid>
    var ready: seq<Tid>
    var cur: Tid
    var clock: nat
    var handler: map<nat, Tid>
    const locks: set<nat>
    const idle: Tid

    constructor (st: State)
      ensures S() == st
    {
      threads, semas, holder, ready, cur, clock, handler := st.threads, st.semas, st.holder, st.ready, st.cur, st.clock, st.handler;
      locks, idle := st.locks, st.idle;
    }

    ghost function S(): State
      reads this
    {
      State(threads, semas, locks, holder, ready, cur, idle, clock, handler)
    }

    method Insert(t: Tid)
      requires t in threads && Known(ready, threads)
      modifies `ready
      ensures ready == InsertOrdered(old(ready), t, threads)
    {
      var i := OrderedPosition(ready, t, threads);
      ready := ready[..i] + [t] + ready[i..];
    }

    /** thread_unblock. */
    method Unblock(t: Tid)
      requires t in threads && Known(ready, threads)
      modifies this
      ensures S() == Enqueue(old(S()), t)
    {
      hide InsertOrdered;
      threads := threads[t := threads[t].(status := Ready, stamp := clock)];
      Insert(t);
      clock := clock + 1;
    }

    /** schedule, with next_thread_to_run. */
    method Schedule()
      requires idle in threads && Known(ready, threads)
      modifies this
      ensures S() == Dispatch(old(S()))
    {
      if ready == [] {
        cur := idle;
      } else {
        cur := ready[0];
        ready := ready[1..];
      }
      threads := threads[cur := threads[cur].(status := Running)];
    }

    /** thread_yield. */
    method YieldCpu()
      requires Closed(S())
      modifies this
      ensures S() == Yield(old(S()))
    {
      hide Enqueue, Dispatch, Closed;
      KnownReady(S());
      if cur != idle {
        EnqueueClosed(S(), cur);
        KnownReady(Enqueue(S(), cur));
        Unblock(cur);
      } else {
        threads := threads[cur := threads[cur].(status := Ready)];
      }
      Schedule();
    }

    /** What thread_propagate_priority does to one holder. */
    method RaiseHolder(h: Tid, p: int)
      requires h in threads && Known(ready, threads)
      modifies this
      ensures S() == Raise(old(S()), h, p)
    {
      hide Enqueue, Without;
      threads := threads[h := threads[h].(priority := p)];
      if threads[h].status == Ready {
        ready := Without(ready, h);
        Unblock(h);
      }
    }

    /** thread_propagate_priority. */
    method PropagatePriority(t: Tid)
      requires Closed(S()) && t in threads
      modifies this
      ensures S() == Propagate(old(S()), old(threads[t].blocking), old(threads[t].priority), DONATION_DEPTH)
    {
      hide Raise, Closed;
      var depth, l, p := 0, threads[t].blocking, threads[t].priority;
      ghost var goal := Propagate(S(), l, p, DONATION_DEPTH);
      while l.Some? && depth < DONATION_DEPTH
        invariant depth <= DONATION_DEPTH && Closed(S())
        invariant goal == Propagate(S(), l, p, DONATION_DEPTH - depth)
        decreases DONATION_DEPTH - depth
      {
        KnownReady(S());
        if l.value !in holder {
          break;
        }
        var h := holder[l.value];
        KnownHolder(S(), l.value);
        if threads[h].priority < p {
          RaiseClosed(S(), h, p);
          var above := threads[h].blocking;
          RaiseHolder(h, p);
          l, depth := above, depth + 1;
        } else {
          break;
        }
      }
    }

    /** One round of the loop in sema_down, with what follows it. */
    method TryDown(s: nat)
      requires Closed(S()) && s in semas
      modifies this
      ensures S() == Attempt(old(S()), s)
    {
      hide InsertOrdered, Dispatch, Closed;
      KnownReady(S());
      KnownWaiters(S(), s);
      if semas[s].value == 0 {
        var q := semas[s].waiters;
        var i := OrderedPosition(q, cur, threads);
        semas := semas[s := semas[s].(waiters := q[..i] + [cur] + q[i..])];
        threads := threads[cur := threads[cur].(status := Blocked)];
        Schedule();
      } else {
        semas := semas[s := semas[s].(value := semas[s].value - 1)];
        if threads[cur].phase.Acquiring? {
          holder := holder[s := cur];
        }
        threads := threads[cur := threads[cur].(phase := Free, blocking := None)];
      }
    }

    /** lock_acquire, up to where the thread holds the lock or blocks. */
    method LockAcquire(l: nat)
      requires Closed(S()) && l in semas && !(l in holder && holder[l] == cur)
      modifies this
      ensures S() == Acquire(old(S()), l)
    {
      hide InsertOrdered, Propagate, Attempt, Closed;
      KnownReady(S());
      RegisterClosed(S(), l);
      ghost var asked := Register(S(), l);
      ghost var p := threads[cur].priority;
      threads := threads[cur := threads[cur].(phase := Acquiring(l))];
      if l in holder {
        var h := holder[l];
        KnownHolder(old(S()), l);
        threads := threads[cur := threads[cur].(blocking := Some(l))];
        assert threads == old(threads)[cur := old(threads[cur]).(phase := Acquiring(l), blocking := Some(l))];
        var q := threads[h].donors;
        var i := OrderedPosition(q, cur, threads);
        threads := threads[h := threads[h].(donors := q[..i] + [cur] + q[i..])];
        assert S() == asked;
        PropagateClosed(asked, Some(l), p, DONATION_DEPTH);
        PropagatePriority(cur);
      }
      TryDown(l);
    }

    /** thread_update_priority for the running thread. */
    method UpdatePriority()
      requires cur in threads && Known(threads[cur].donors, threads)
      modifies `threads
      ensures threads == old(threads)[cur := old(threads[cur]).(priority := Effective(old(threads[cur].base), old(threads[cur].donors), old(threads)))]
    {
      hide FirstMax;
      var priority := threads[cur].base;
      if threads[cur].donors != [] {
        var m := ListMax(threads[cur].donors, threads);
        if threads[m].priority > priority {
          priority := threads[m].priority;
        }
      }
      if threads[cur].priority != priority {
        threads := threads[cur := threads[cur].(priority := priority)];
      }
    }

    /** The first half of lock_release. */
    method LockRelease(l: nat)
      requires Closed(S()) && l in holder && holder[l] == cur && cur !in threads[cur].donors
      modifies this
      ensures S() == Release(old(S()), l)
    {
      hide NotFor, Effective;
      var left := DropDonors(threads[cur].donors, l, threads);
      threads := threads[cur := threads[cur].(donors := left, phase := Releasing(l))];
      holder := holder - {l};
      handler := handler[l := cur];
      EffectiveFrame(old(threads[cur].base), left, old(threads), threads);
      UpdatePriority();
    }

    /** sema_up. */
    method SemaUp(s: nat, interrupt: bool)
      requires Closed(S()) && s in semas
      modifies this
      ensures S() == Up(old(S()), s, interrupt)
      ensures old(Inv(S()) && MayPost(S(), s, interrupt)) ==>
        && (old(Preemption.Topmost(S())) && !interrupt ==> Preemption.Topmost(S()))
        && (cur == old(cur) <==> interrupt || forall t :: t in old(semas[s].waiters) ==> t in old(threads) && old(threads[t].priority) <= old(threads[cur].priority))
    {
      hide Inv, MayPost, Preemption.Topmost, Closed, FirstMax, Without, Enqueue, Yield;
      if Inv(S()) && MayPost(S(), s, interrupt) {
        Preemption.UpOutcome(S(), s, interrupt);
      }
      KnownReady(S());
      PostClosed(S(), s);
      var me := threads[cur];
      semas := semas[s := semas[s].(value := semas[s].value + 1)];
      threads := threads[cur := if me.phase == Releasing(s) then me.(phase := Free) else me];
      assert S() == Post(old(S()), s);
      KnownWaiters(S(), s);
      if semas[s].waiters != [] {
        var t := ListMax(semas[s].waiters, threads);
        UnlistedClosed(S(), s);
        semas := semas[s := semas[s].(waiters := Without(semas[s].waiters, t))];
        KnownReady(S());
        EnqueueClosed(S(), t);
        Unblock(t);
        KnownReady(S());
        EnqueueTouches(Unlisted(Post(old(S()), s), s), t);
        if threads[t].priority > threads[cur].priority && !interrupt {
          YieldCpu();
        }
      }
    }

    /** The first stretch of thread_set_priority. */
    method StoreBase(base: int)
      requires cur in threads
      modifies `threads
      ensures S() == SetBase(old(S()), base)
    {
      threads := threads[cur := threads[cur].(base := base, phase := Setting)];
    }

    /** The second: thread_update_priority. */
    method UpdateOwn()
      requires Closed(S())
      modifies `threads
      ensures S() == Update(old(S()))
    {
      hide Effective;
      KnownDonorsOf(S(), cur);
      UpdatePriority();
      threads := threads[cur := threads[cur].(phase := Passing)];
    }

    /** The third: thread_propagate_priority. */
    method PropagateOwn()
      requires Closed(S())
      modifies this
      ensures S() == PassOn(old(S()))
    {
      hide Closed, Propagate;
      KnownReady(S());
      ghost var st := S();
      PropagateClosed(st, threads[cur].blocking, threads[cur].priority, DONATION_DEPTH);
      PropagatePriority(cur);
      KnownReady(S());
      threads := threads[cur := threads[cur].(phase := Comparing)];
    }

    /** The fourth: is there somebody with more priority? */
    method CompareFront()
      requires Closed(S())
      modifies `threads
      ensures S() == Compare(old(S()))
    {
      if ready != [] && threads[cur].priority < threads[ready[0]].priority {
        threads := threads[cur := threads[cur].(phase := Yielding)];
      } else {
        threads := threads[cur := threads[cur].(phase := Free)];
      }
    }

    /** thread_set_priority, if nothing interrupts it between its stretches. */
    method SetOwnPriority(base: int)
      requires Closed(S())
      modifies this
      ensures S() == SetPriority(old(S()), base)
      ensures old(Inv(S()) && cur != idle && threads[cur].phase == Free) ==>
        && old(cur) in threads && threads[old(cur)].base == base && threads[old(cur)].priority >= base
        && (forall d :: d in old(threads[cur].donors) ==> d in old(threads) && threads[old(cur)].priority >= old(threads[d].priority))
        && (threads[old(cur)].priority == base || exists d :: d in old(threads[cur].donors) && d in old(threads) && threads[old(cur)].priority == old(threads[d].priority))
        && Preemption.Topmost(S())
    {
      hide Inv, Preemption.Topmost, Closed, Update, PassOn, Compare, Yield;
      KnownReady(S());
      if Inv(S()) && cur != idle && threads[cur].phase == Free {
        Preemption.SetPriorityOutcome(S(), base);
      }
      ghost var st := S();
      KnownDonorsOf(st, cur);
      SetCurrentClosed(st, threads[cur].(base := base, phase := Setting));
      StoreBase(base);
      UpdateClosed(S());
      UpdateOwn();
      PassClosed(S());
      PropagateOwn();
      ghost var w := S();
      CompareClosed(w);
      CompareFront();
      KnownReady(S());
      if threads[cur].phase == Yielding {
        KnownDonorsOf(S(), cur);
        SetCurrentClosed(S(), threads[cur].(phase := Free));
        threads := threads[cur := threads[cur].(phase := Free)];
        YieldCpu();
      }
    }
  }

  lemma CompareClosed(st: State)
    requires Closed(st)
    ensures Closed(Compare(st)) && Compare(st).cur == st.cur
  {
  }

  lemma KnownHolder(st: State, l: nat)
    requires Closed(st) && l in st.holder
    ensures st.holder[l] in st.threads && Known(st.threads[st.holder[l]].donors, st.threads)
  {
  }

  lemma KnownWaiters(st: State, s: nat)
    requires Closed(st) && s in st.semas
    ensures Known(st.semas[s].waiters, st.threads)
  {
  }

  lemma KnownDonorsOf(st: State, t: Tid)
    requires Closed(st) && t in st.threads
    ensures Known(st.threads[t].donors, st.threads)
  {
  }

  lemma PostClosed(st: State, s: nat)
    requires Closed(st) && s in st.semas
    ensures Closed(Post(st, s)) && s in Post(st, s).semas
  {
  }

  lemma UnlistedClosed(st: State, s: nat)
    requires Closed(st) && s in st.semas && st.semas[s].waiters != []
    ensures Closed(Unlisted(st, s))
  {
    hide FirstMax, Without;
  }

  /** The maximum over the donors depends only on their priorities. */
  lemma EffectiveFrame(base: int, donors: seq<Tid>, ts: map<Tid, Thread>, ts': map<Tid, Thread>)
    requires Known(donors, ts) && Known(donors, ts') && forall d :: d in donors ==> ts'[d].priority == ts[d].priority
    ensures Effective(base, donors, ts') == Effective(base, donors, ts)
  {
  }
}
