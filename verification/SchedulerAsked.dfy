/**
 What the scheduler does for its users, against what they asked for: synchronisation and
 priority of each queue are kept as history from the step that creates it, the events of a
 queue from the steps that enqueue them, and the order of delivery from the steps that deliver.
 */
module SchedulerAsked {
  import opened Options
  import opened Sequences
  import opened QueueStatus
  import opened Scheduler
  import opened SchedulerInvariant
  import opened SchedulerTheorems

  datatype Request = Request(atomic: bool, prio: nat)

  /**
   Per queue, since it was last created: what was asked for, the events that arrived, and those
   of them that were delivered, in the order of their delivery.
   */
  datatype Traced = Traced(sys: State, asked: seq<Request>, arrived: seq<seq<nat>>, given: seq<seq<nat>>) {
    predicate Sized() { |asked| == |arrived| == |given| == |sys.queues| }
  }

  /** The events of `es` that are among `all`, in order. */
  function Among(es: seq<nat>, all: seq<nat>): seq<nat>
  {
    if es == [] then [] else (if es[0] in all then [es[0]] else []) + Among(es[1..], all)
  }

  function Handing(x: Traced, es: seq<nat>): (r: seq<seq<nat>>)
    requires x.Sized()
    ensures |r| == |x.given| && forall q :: 0 <= q < |r| ==> r[q] == x.given[q] + Among(es, x.arrived[q])
  {
    seq(|x.given|, q requires 0 <= q < |x.given| => x.given[q] + Among(es, x.arrived[q]))
  }

  function Noted(x: Traced, t: nat, a: Action): Traced
    requires x.Sized() && t < |x.sys.threads| && Enabled(x.sys, t, a)
  {
    match a
    case Create(q, atomic, prio) =>
      x.(asked := x.asked[q := Request(atomic, prio)], arrived := x.arrived[q := []], given := x.given[q := []])
    case Enqueue(q, n) =>
      if x.sys.queues[q].status.Free? || x.sys.queues[q].status.Destroyed? then x
      else x.(arrived := x.arrived[q := x.arrived[q] + Range(|x.sys.events|, n)])
    case Deliver(n) => x.(given := Handing(x, x.sys.threads[t].stash[..n]))
    case _ => x
  }

  ghost predicate TracedNext(x: Traced, x': Traced)
  {
    x.Sized() && exists t: nat, a ::
      t < |x.sys.threads| && Allowed(x.sys, t, a) && x' == Noted(x, t, a).(sys := Apply(x.sys, t, a))
  }

  /** Runs with history, in which no queue is used before its creation has returned. */
  ghost predicate IsTrace(run: seq<Traced>)
  {
    && |run| > 0 && Init(run[0].sys) && run[0].Sized()
    && forall i :: 0 <= i < |run| - 1 ==> TracedNext(run[i], run[i + 1])
  }

  // ---------------------------------------------------------------- the invariant

  ghost predicate AskedOk(x: Traced, q: nat)
    requires x.Sized() && q < |x.asked|
  {
    var qu := x.sys.queues[q];
    !qu.status.Free? ==>
      && Request(qu.atomic, qu.prio) == x.asked[q] && qu.came == x.arrived[q]
      && (qu.atomic ==> qu.went == x.given[q])
  }

  ghost predicate TracedInv(x: Traced)
  {
    Inv(x.sys) && x.Sized() && forall q :: 0 <= q < |x.asked| ==> AskedOk(x, q)
  }

  lemma {:induction false} AmongAll(es: seq<nat>, all: seq<nat>)
    requires forall e :: e in es ==> e in all
    ensures Among(es, all) == es
  {
    if es == [] {
    } else {
      assert es[0] in es;
      AmongAll(es[1..], all);
    }
  }

  lemma {:induction false} AmongNone(es: seq<nat>, all: seq<nat>)
    requires forall e :: e in es ==> e !in all
    ensures Among(es, all) == []
  {
    if es == [] {
    } else {
      assert es[0] in es;
      AmongNone(es[1..], all);
    }
  }

  /** What a thread delivers under the context of an atomic queue is of that queue, and nothing else is. */
  lemma DeliverAsked(s: State, t: nat, q: nat, n: nat)
    requires Inv(s) && t < |s.threads| && Enabled(s, t, Deliver(n)) && q < |s.queues|
    requires s.queues[q].atomic && !s.queues[q].status.Free?
    ensures Among(s.threads[t].stash[..n], s.queues[q].came)
         == if s.threads[t].held == Some(q) then s.threads[t].stash[..n] else []
  {
    var th, came := s.threads[t], s.queues[q].came;
    var es := th.stash[..n];
    if th.held == Some(q) {
      assert ThreadOk(s, t) && OrderOk(s, q);
      assert Pending(s, q) == th.stash;
      AmongAll(es, came);
    } else {
      forall e | e in es
        ensures e !in came
      {
        assert e in th.stash;
        if e in came {
          AtomicEventsHeld(s, t, q, e);
        }
      }
      AmongNone(es, came);
    }
  }

  lemma DeliverStep(x: Traced, t: nat, n: nat, q: nat)
    requires TracedInv(x) && t < |x.sys.threads| && Enabled(x.sys, t, Deliver(n)) && q < |x.asked|
    ensures AskedOk(Noted(x, t, Deliver(n)).(sys := Apply(x.sys, t, Deliver(n))), q)
  {
    var s := x.sys;
    assert AskedOk(x, q) && ThreadOk(s, t);
    if s.queues[q].atomic && !s.queues[q].status.Free? {
      DeliverAsked(s, t, q, n);
      assert s.queues[q].went + [] == s.queues[q].went;
    }
  }

  /** Only creating it, enqueueing to it and delivering from it change what a queue is and has got. */
  lemma QueueKeeps(s: State, t: nat, a: Action, q: nat)
    requires t < |s.threads| && Enabled(s, t, a) && q < |s.queues| && !a.Deliver?
    requires a.Create? || a.Enqueue? ==> a.q != q
    ensures q < |Apply(s, t, a).queues|
    ensures var qu, qu' := s.queues[q], Apply(s, t, a).queues[q];
            && qu'.atomic == qu.atomic && qu'.prio == qu.prio && qu'.came == qu.came && qu'.went == qu.went
            && (qu.status.Free? ==> qu'.status.Free?)
  {
  }

  lemma OtherStep(x: Traced, t: nat, a: Action, q: nat)
    requires x.Sized() && t < |x.sys.threads| && Allowed(x.sys, t, a) && !a.Deliver? && q < |x.asked|
    requires AskedOk(x, q)
    ensures |Apply(x.sys, t, a).queues| == |x.asked|
    ensures AskedOk(Noted(x, t, a).(sys := Apply(x.sys, t, a)), q)
  {
    QueuesKept(x.sys, t, a);
    if (a.Create? || a.Enqueue?) && a.q == q {
    } else {
      QueueKeeps(x.sys, t, a, q);
    }
  }

  lemma TracedStep(x: Traced, x': Traced)
    requires TracedInv(x) && TracedNext(x, x')
    ensures TracedInv(x')
  {
    var t: nat, a :| t < |x.sys.threads| && Allowed(x.sys, t, a) && x' == Noted(x, t, a).(sys := Apply(x.sys, t, a));
    assert Next(false, x.sys, x'.sys);
    StepInv(x.sys, x'.sys);
    NotedSized(x, t, a);
    forall q | 0 <= q < |x'.asked|
      ensures AskedOk(x', q)
    {
      assert AskedOk(x, q);
      if a.Deliver? {
        DeliverStep(x, t, a.n, q);
      } else {
        OtherStep(x, t, a, q);
      }
    }
  }

  lemma NotedSized(x: Traced, t: nat, a: Action)
    requires x.Sized() && t < |x.sys.threads| && Enabled(x.sys, t, a)
    ensures Noted(x, t, a).(sys := Apply(x.sys, t, a)).Sized() && |Noted(x, t, a).asked| == |x.asked|
  {
    QueuesKept(x.sys, t, a);
  }

  lemma QueuesKept(s: State, t: nat, a: Action)
    requires t < |s.threads| && Enabled(s, t, a)
    ensures |Apply(s, t, a).queues| == |s.queues|
  {
  }

  lemma {:induction false} TraceInv(run: seq<Traced>)
    requires IsTrace(run)
    ensures TracedInv(Last(run))
  {
    if |run| == 1 {
      InitInv(run[0].sys);
    } else {
      assert IsTrace(run[..|run| - 1]);
      TraceInv(run[..|run| - 1]);
      TracedStep(run[|run| - 2], run[|run| - 1]);
    }
  }

  // ---------------------------------------------------------------- what users get

  /** A live queue asked to be atomic delivers in the order of arrival, and nothing of it is lost. */
  lemma AskedOrder(run: seq<Traced>, q: nat)
    requires IsTrace(run) && q < |Last(run).sys.queues| && !Last(run).sys.queues[q].status.Free?
    ensures q < |Last(run).asked| && Last(run).Sized()
    ensures Last(run).asked[q].atomic ==> Last(run).given[q] <= Last(run).arrived[q]
    ensures Last(run).asked[q].atomic ==>
              Last(run).arrived[q] == Last(run).given[q] + Pending(Last(run).sys, q) + Last(run).sys.queues[q].list
  {
    TraceInv(run);
    assert AskedOk(Last(run), q) && OrderOk(Last(run).sys, q);
  }

  /** The events of a queue asked to be atomic that are taken and not delivered are with one thread. */
  lemma AskedExclusive(run: seq<Traced>, q: nat, t: nat, u: nat, d: nat, e: nat)
    requires IsTrace(run) && Last(run).Sized() && q < |Last(run).asked| && Last(run).asked[q].atomic
    requires !Last(run).sys.queues[q].status.Free? && t < |Last(run).sys.threads| && u < |Last(run).sys.threads|
    requires d in Last(run).sys.threads[t].stash && e in Last(run).sys.threads[u].stash
    requires d in Last(run).arrived[q] && e in Last(run).arrived[q]
    ensures t == u && Last(run).sys.threads[t].held == Some(q)
  {
    TraceInv(run);
    var s := Last(run).sys;
    assert AskedOk(Last(run), q);
    AtomicEventsHeld(s, t, q, d);
    AtomicEventsHeld(s, u, q, e);
    AtomicExclusive(s, t, u, q);
  }

  /** Only a queue asked to be atomic ever has its context held. */
  lemma AskedParallel(run: seq<Traced>, q: nat, t: nat)
    requires IsTrace(run) && t < |Last(run).sys.threads| && Last(run).sys.threads[t].held == Some(q)
    ensures q < |Last(run).asked| && Last(run).asked[q].atomic
  {
    TraceInv(run);
    var s := Last(run).sys;
    assert ThreadOk(s, t);
    assert QueueOk(s, q) && AskedOk(Last(run), q);
  }

  /** A command is only on the priority queue of the priority asked for, and there on the one of its number. */
  lemma AskedPriority(run: seq<Traced>, x: nat, i: nat)
    requires IsTrace(run) && x < |Last(run).sys.pri| && i < |Last(run).sys.pri[x]|
    ensures var q := Last(run).sys.pri[x][i];
            q < |Last(run).asked| && x / PER_PRIO == Last(run).asked[q].prio && x % PER_PRIO == q % PER_PRIO
  {
    TraceInv(run);
    var s := Last(run).sys;
    assert PriOk(s, x);
    var q := s.pri[x][i];
    assert QueueOk(s, q) && AskedOk(Last(run), q);
  }

  // ---------------------------------------------------------------- batches

  ghost predicate Ascending(es: seq<nat>)
  {
    forall i, j :: 0 <= i < j < |es| ==> es[i] < es[j]
  }

  /** Lists and batches hold their events in the order of arrival. */
  ghost predicate Sorted(s: State)
  {
    && (forall q :: 0 <= q < |s.queues| ==> Ascending(s.queues[q].list))
    && (forall t :: 0 <= t < |s.threads| ==> Ascending(s.threads[t].stash))
  }

  lemma Later(list: seq<nat>, m: nat, n: nat)
    requires Ascending(list) && forall e :: e in list ==> e < m
    ensures Ascending(list + Range(m, n))
  {
    assert forall i :: 0 <= i < |list| ==> list[i] in list;
  }

  /** A step leaves the list of a queue, empties it, takes from its front, or appends new events. */
  lemma ListMoves(s: State, t: nat, a: Action, q: nat)
    requires t < |s.threads| && Allowed(s, t, a) && q < |s.queues|
    ensures q < |Apply(s, t, a).queues|
    ensures var l, l' := s.queues[q].list, Apply(s, t, a).queues[q].list;
            || l' == l || l' == []
            || (a.Dequeue? && exists n :: 0 <= n <= |l| && l' == l[n..])
            || (a.Enqueue? && l' == l + Range(|s.events|, a.n))
  {
  }

  lemma SortedList(s: State, t: nat, a: Action, q: nat)
    requires t < |s.threads| && Allowed(s, t, a) && q < |s.queues| && Ascending(s.queues[q].list)
    requires forall e :: e in s.queues[q].list ==> e < |s.events|
    ensures q < |Apply(s, t, a).queues| && Ascending(Apply(s, t, a).queues[q].list)
  {
    ListMoves(s, t, a, q);
    if a.Enqueue? {
      Later(s.queues[q].list, |s.events|, a.n);
    }
  }

  lemma SortedStash(s: State, t: nat, a: Action, u: nat)
    requires t < |s.threads| && Allowed(s, t, a) && u < |s.threads| && Ascending(s.threads[u].stash)
    requires forall q :: 0 <= q < |s.queues| ==> Ascending(s.queues[q].list)
    ensures |Apply(s, t, a).threads| == |s.threads| && Ascending(Apply(s, t, a).threads[u].stash)
  {
  }

  lemma SortedStep(s: State, t: nat, a: Action)
    requires Inv(s) && Sorted(s) && t < |s.threads| && Allowed(s, t, a)
    ensures Sorted(Apply(s, t, a))
  {
    QueuesKept(s, t, a);
    forall q | 0 <= q < |s.queues|
      ensures Ascending(Apply(s, t, a).queues[q].list)
    {
      SortedList(s, t, a, q);
    }
    forall u | 0 <= u < |s.threads|
      ensures |Apply(s, t, a).threads| == |s.threads| && Ascending(Apply(s, t, a).threads[u].stash)
    {
      SortedStash(s, t, a, u);
    }
  }

  /** In every run, what a thread has taken from a queue of any kind it delivers in the order of arrival. */
  lemma {:induction false} BatchInOrder(run: seq<State>)
    requires IsRun(false, run)
    ensures Sorted(Last(run))
  {
    if |run| == 1 {
    } else {
      RunPrefix(run);
      var before := run[..|run| - 1];
      BatchInOrder(before);
      RunInv(before);
      var s := Last(before);
      assert Next(false, s, run[|run| - 1]);
      var t: nat, a :| t < |s.threads| && Allowed(s, t, a) && run[|run| - 1] == Apply(s, t, a);
      SortedStep(s, t, a);
    }
  }

  ghost predicate Traces(trace: seq<Traced>, run: seq<State>)
  {
    |trace| == |run| && forall i :: 0 <= i < |run| ==> trace[i].sys == run[i]
  }

  /** The history takes nothing away: every run has a trace. */
  lemma {:induction false} EveryRunIsTraced(run: seq<State>) returns (trace: seq<Traced>)
    requires IsRun(false, run)
    ensures IsTrace(trace) && Traces(trace, run) && Last(trace).Sized()
  {
    if |run| == 1 {
      var n := |run[0].queues|;
      trace := [Traced(run[0], Repeat(Request(false, 0), n), Repeat([], n), Repeat([], n))];
    } else {
      RunPrefix(run);
      var before := run[..|run| - 1];
      trace := EveryRunIsTraced(before);
      var s := run[|run| - 2];
      assert Next(false, s, run[|run| - 1]);
      var t: nat, a :| t < |s.threads| && Allowed(s, t, a) && run[|run| - 1] == Apply(s, t, a);
      trace := Append(trace, t, a);
    }
  }

  lemma Append(trace: seq<Traced>, t: nat, a: Action) returns (longer: seq<Traced>)
    requires IsTrace(trace) && Last(trace).Sized() && t < |Last(trace).sys.threads| && Allowed(Last(trace).sys, t, a)
    ensures IsTrace(longer) && longer == trace + [Last(longer)] && Last(longer).Sized()
    ensures Last(longer).sys == Apply(Last(trace).sys, t, a)
  {
    var x := Last(trace);
    var x' := Noted(x, t, a).(sys := Apply(x.sys, t, a));
    NotedSized(x, t, a);
    assert TracedNext(x, x');
    longer := trace + [x'];
    forall i | 0 <= i < |longer| - 1
      ensures TracedNext(longer[i], longer[i + 1])
    {
      if i < |trace| - 1 {
        assert longer[i] == trace[i] && longer[i + 1] == trace[i + 1];
      }
    }
  }
}
