/**
 What the scheduler promises in every state of every run, stated on the queues,
 priority queues and threads alone.
 */
module SchedulerTheorems {
  import opened Options
  import opened QueueStatus
  import opened Scheduler
  import opened SchedulerInvariant

  /** The spots a command can be found at. */
  datatype Spot = OnPri(x: nat, i: nat) | WithThread(t: nat) | Context(t: nat)

  /** The command of queue q is at this spot. */
  ghost predicate At(s: State, q: nat, l: Spot)
  {
    match l
    case OnPri(x, i) => x < |s.pri| && i < |s.pri[x]| && s.pri[x][i] == q
    case WithThread(t) => t < |s.threads| && InHands(s.threads[t].pc) == Some(q)
    case Context(t) => t < |s.threads| && s.threads[t].held == Some(q)
  }

  /** The one spot that matches the recorded place. */
  lemma AtMatchesPlace(s: State, q: nat, l: Spot)
    requires Tokens(s) && q < |s.queues| && At(s, q, l)
    ensures match l
            case OnPri(x, _) => s.queues[q].place == InPri && x == PriIndex(s.queues[q], q)
            case WithThread(t) => s.queues[q].place == AtThread(t)
            case Context(t) => s.queues[q].place == HeldBy(t)
  {
    match l
    case OnPri(x, i) => assert PriOk(s, x);
    case WithThread(t) => assert ThreadOk(s, t);
    case Context(t) => assert ThreadOk(s, t);
  }

  /** No command is in two places. */
  lemma CommandUnique(s: State, q: nat, l: Spot, l': Spot)
    requires Inv(s) && q < |s.queues| && At(s, q, l) && At(s, q, l')
    ensures l == l'
  {
    AtMatchesPlace(s, q, l);
    AtMatchesPlace(s, q, l');
    if l.OnPri? {
      assert PriOk(s, l.x);
    }
  }

  /** A command exists in some place exactly while its queue is scheduled or being destroyed. */
  lemma CommandExists(s: State, q: nat)
    requires Inv(s) && q < |s.queues|
    ensures (exists l :: At(s, q, l)) <==> s.queues[q].status.Sched? || s.queues[q].status.Destroyed?
  {
    var qu := s.queues[q];
    assert QueueOk(s, q);
    forall l | At(s, q, l)
      ensures qu.status.Sched? || qu.status.Destroyed?
    {
      AtMatchesPlace(s, q, l);
    }
    if qu.place.InPri? {
      var i :| 0 <= i < |s.pri[PriIndex(qu, q)]| && s.pri[PriIndex(qu, q)][i] == q;
      assert At(s, q, OnPri(PriIndex(qu, q), i));
    } else if qu.place.AtThread? {
      assert At(s, q, WithThread(qu.place.t));
    } else if qu.place.HeldBy? {
      assert At(s, q, Context(qu.place.t));
    }
  }

  /**
   Every scheduled queue, and every queue being destroyed, has a command, in exactly one place;
   no other queue's command is anywhere.
   */
  ghost predicate ConservedAt(s: State, q: nat)
    requires q < |s.queues|
  {
    && ((exists l :: At(s, q, l)) <==> s.queues[q].status.Sched? || s.queues[q].status.Destroyed?)
    && (forall l, l' :: At(s, q, l) && At(s, q, l') ==> l == l')
    && (s.queues[q].status.Sched? || s.queues[q].status.Destroyed? ==> s.queues[q].cmd)
  }

  ghost predicate Conserved(s: State)
  {
    forall q :: 0 <= q < |s.queues| ==> ConservedAt(s, q)
  }

  /** Token conservation, over every run in which no queue is used before its creation has returned. */
  lemma TokenConservation(run: seq<State>)
    requires IsRun(false, run)
    ensures Conserved(run[|run| - 1])
  {
    var s := run[|run| - 1];
    RunInv(run);
    forall q | 0 <= q < |s.queues|
      ensures ConservedAt(s, q)
    {
      assert QueueOk(s, q);
      CommandExists(s, q);
      forall l, l' | At(s, q, l) && At(s, q, l')
        ensures l == l'
      {
        CommandUnique(s, q, l, l');
      }
    }
  }

  /** No lost wakeup: a queue with events is scheduled and its command is somewhere. */
  lemma NoLostWakeup(s: State, q: nat)
    requires Inv(s) && q < |s.queues| && s.queues[q].list != []
    ensures s.queues[q].status.Sched? && exists l :: At(s, q, l)
  {
    assert QueueOk(s, q);
    CommandExists(s, q);
  }

  /** At most one thread has the context of an atomic queue. */
  lemma AtomicExclusive(s: State, t: nat, u: nat, q: nat)
    requires Inv(s) && t < |s.threads| && u < |s.threads| && s.threads[t].held == Some(q) == s.threads[u].held
    ensures t == u && q < |s.queues| && s.queues[q].atomic
  {
    assert ThreadOk(s, t) && ThreadOk(s, u);
    assert QueueOk(s, q);
  }

  /** A thread with undelivered events of an atomic queue has its context, so there is only one. */
  lemma AtomicEventsHeld(s: State, t: nat, q: nat, e: nat)
    requires Inv(s) && t < |s.threads| && q < |s.queues| && s.queues[q].atomic && !s.queues[q].status.Free?
    requires e in s.queues[q].came && e in s.threads[t].stash
    ensures s.threads[t].held == Some(q)
  {
    assert OrderOk(s, q) && QueueOk(s, q) && HandedBy(s, q);
    assert s.events[e] == InStash(t);
    assert e !in s.queues[q].went && e !in s.queues[q].list;
    assert e in Pending(s, q);
  }

  /** Taking events of an atomic queue always takes its context. */
  lemma AtomicDequeueHolds(s: State, t: nat, max: nat)
    requires Inv(s) && t < |s.threads| && Allowed(s, t, Dequeue(max)) && s.threads[t].pc.q < |s.queues|
    requires s.queues[s.threads[t].pc.q].atomic
    ensures var s', q := Apply(s, t, Dequeue(max)), s.threads[t].pc.q;
            s'.threads[t].stash != [] ==> s'.threads[t].held == Some(q) && s'.threads[t].from == q
  {
    assert ThreadOk(s, t);
  }

  /**
   A command is freed only when it can be reached no more: after the step that frees it no
   priority queue and no other thread has it, and the queue is empty.
   */
  lemma FreedUnreachable(s: State, t: nat, a: Action, q: nat)
    requires Inv(s) && t < |s.threads| && Allowed(s, t, a) && q < |s.queues|
    requires s.queues[q].cmd && !Apply(s, t, a).queues[q].cmd
    ensures forall l :: !At(Apply(s, t, a), q, l)
    ensures Apply(s, t, a).queues[q].list == []
  {
    var s' := Apply(s, t, a);
    assert |s'.queues| == |s.queues|;
    assert Inv(s') by {
      assert Next(false, s, s');
      StepInv(s, s');
    }
    NoCommandNowhere(s', q);
  }

  lemma NoCommandNowhere(s: State, q: nat)
    requires Inv(s) && q < |s.queues| && !s.queues[q].cmd
    ensures (forall l :: !At(s, q, l)) && s.queues[q].list == []
  {
    assert QueueOk(s, q);
    forall l
      ensures !At(s, q, l)
    {
      if At(s, q, l) { AtMatchesPlace(s, q, l); }
    }
  }

  /** The events an atomic queue has handed out are the first that came, in order. */
  lemma AtomicOrder(run: seq<State>, q: nat)
    requires IsRun(false, run) && q < |run[|run| - 1].queues|
    requires run[|run| - 1].queues[q].atomic && !run[|run| - 1].queues[q].status.Free?
    ensures var s := run[|run| - 1];
            && s.queues[q].went <= s.queues[q].came
            && s.queues[q].came == s.queues[q].went + Pending(s, q) + s.queues[q].list
  {
    RunInv(run);
    assert OrderOk(run[|run| - 1], q);
  }

  /** A priority queue that holds a command counts at least one live queue. */
  lemma HolderIsCounted(s: State, x: nat)
    requires Inv(s) && x < |s.pri|
    ensures s.pri[x] != [] ==> s.count[x] > 0
  {
    assert PriOk(s, x);
    assert s.count[x] == |Served(s, x)|;
    if s.pri[x] != [] {
      var q := s.pri[x][0];
      assert QueueOk(s, q);
      assert q in Served(s, x);
    }
  }

  /** A priority queue whose mask bit is clear holds no command: skipping it loses nothing. */
  lemma SkippedIsEmpty(s: State, p: nat, id: nat)
    requires Inv(s) && p < PRIOS && id < PER_PRIO && !IsSet(s.mask[p], id)
    ensures p * PER_PRIO + id < |s.pri| && s.pri[p * PER_PRIO + id] == []
  {
    HolderIsCounted(s, p * PER_PRIO + id);
  }

  /** An event in two lists or stashes, or in one of them twice, or delivered and still queued: never. */
  lemma EventInOnePlace(s: State, e: nat, q: nat, t: nat)
    requires Inv(s) && e < |s.events| && q < |s.queues| && t < |s.threads|
    ensures e in s.queues[q].list <==> s.events[e] == InList(q)
    ensures e in s.threads[t].stash <==> s.events[e] == InStash(t)
    ensures s.events[e] == Delivered ==> e !in s.queues[q].list && e !in s.threads[t].stash
  {
    assert EventOk(s, e);
  }

  /** Delivered events stay delivered, and an event leaves its place only to the next one. */
  lemma EventsMoveForward(s: State, t: nat, a: Action, e: nat)
    requires Inv(s) && t < |s.threads| && Allowed(s, t, a) && e < |s.events|
    ensures e < |Apply(s, t, a).events|
    ensures s.events[e] == Delivered ==> Apply(s, t, a).events[e] == Delivered
    ensures s.events[e].InStash? ==> Apply(s, t, a).events[e] in {s.events[e], Delivered}
    ensures s.events[e].InList? ==> Apply(s, t, a).events[e] in {s.events[e], InStash(t)}
  {
    assert EventOk(s, e);
    assert ThreadOk(s, t);
    if a.Dequeue? {
      assert QueueOk(s, s.threads[t].pc.q);
    }
  }

  /** The step system changes a queue exactly as the locked sections over the linked list do. */
  lemma StepsAreLockedSections(s: State, t: nat, a: Action)
    requires Inv(s) && t < |s.threads| && Allowed(s, t, a)
    ensures a.Enqueue? ==>
              var q', es := Apply(s, t, a).queues[a.q], Range(|s.events|, a.n);
              (q'.status, q'.list) == AfterEnqueue(s.queues[a.q].status, s.queues[a.q].list, es)
    ensures a.Dequeue? ==>
              var q := s.threads[t].pc.q;
              var q', r := Apply(s, t, a).queues[q], AfterDequeue(s.queues[q].status, s.queues[q].list, a.max);
              && (q'.status, q'.list) == (r.1, r.2)
              && (r.0 > 0 ==> Apply(s, t, a).threads[t].stash == s.queues[q].list[..r.0])
              && (r.0 < 0 <==> Apply(s, t, a).threads[t].pc == Finalizing(q))
    ensures a.Destroy? ==>
              var q', r := Apply(s, t, a).queues[a.q], AfterDestroy(s.queues[a.q].status, s.queues[a.q].list);
              q'.status == r.1 && (r.0 < 0 ==> Apply(s, t, a) == s)
  {
    assert ThreadOk(s, t);
    if a.Dequeue? {
      var qu := s.queues[s.threads[t].pc.q];
      assert QueueOk(s, s.threads[t].pc.q);
      assert qu.list[|qu.list|..] == [];
    }
  }
}
