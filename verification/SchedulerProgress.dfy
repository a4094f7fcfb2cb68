/**
 The scheduler is never stuck: from every reachable state, one thread that goes on alone
 comes to dequeue from any queue that has events.
 */
module SchedulerProgress {
  import opened Options
  import opened Sequences
  import opened QueueStatus
  import opened Scheduler
  import opened SchedulerInvariant

  /** The steps of a thread that finishes its call and schedules; it is always eligible. */
  predicate Serving(a: Action)
  {
    a.InitCommand? || a.Push? || a.Take? || a.Dequeue? || a.Deliver? || a.Release? || a.Finalize?
  }

  ghost predicate SoloStep(s: State, t: nat, s': State)
  {
    t < |s.threads| && exists a :: Serving(a) && Allowed(s, t, a) && s' == Apply(s, t, a)
  }

  /** Thread t goes on alone. */
  ghost predicate Solo(path: seq<State>, t: nat)
  {
    |path| > 0 && forall i :: 0 <= i < |path| - 1 ==> SoloStep(path[i], t, path[i + 1])
  }

  /** What thread t does next; with nothing left to do it looks at priority queue x. */
  function Own(s: State, t: nat, x: nat): Action
    requires t < |s.threads|
  {
    var th := s.threads[t];
    match th.pc
    case Creating(_) => InitCommand
    case Pushing(_) => Push
    case Hand(_) => Dequeue(1)
    case Finalizing(_) => Finalize
    case Ready => if th.stash != [] then Deliver(|th.stash|) else if th.held.Some? then Release else Take(x)
  }

  /** A bound on the steps until thread t has nothing left to do. */
  function Work(th: Thread): nat
  {
    (if th.pc.Ready? then 0 else if th.pc.Hand? then 3 else 1)
    + (if th.stash != [] then 1 else 0) + (if th.held.Some? then 1 else 0)
  }

  lemma OwnAllowed(s: State, t: nat, x: nat)
    requires Inv(s) && t < |s.threads| && x < |s.pri| && s.pri[x] != []
    ensures Serving(Own(s, t, x)) && Allowed(s, t, Own(s, t, x))
  {
    assert ThreadOk(s, t) && PriOk(s, x);
  }

  /** The queue is as it was, but for the place of its command and what it has handed out. */
  predicate Same(a: Queue, b: Queue)
  {
    a.status == b.status && a.atomic == b.atomic && a.prio == b.prio && a.list == b.list && a.cmd == b.cmd
  }

  /** The command of queue q is at position i of its priority queue, and the queue is still like `qu`. */
  ghost predicate Queued(s: State, q: nat, i: nat, qu: Queue)
  {
    && WellFormed(s) && q < |s.queues| && Same(s.queues[q], qu) && s.queues[q].place.InPri?
    && i < |s.pri[PriIndex(s.queues[q], q)]| && s.pri[PriIndex(s.queues[q], q)][i] == q
  }

  lemma OwnTakes(s: State, t: nat, q: nat, i: nat, qu: Queue)
    requires Inv(s) && t < |s.threads| && Queued(s, q, i, qu) && Enabled(s, t, Take(PriIndex(s.queues[q], q)))
    ensures var s' := Apply(s, t, Take(PriIndex(s.queues[q], q)));
            && (i == 0 ==> s'.threads[t].pc == Hand(q) && q < |s'.queues| && Same(s'.queues[q], qu))
            && (i > 0 ==> Queued(s', q, i - 1, qu))
  {
    assert PriOk(s, PriIndex(s.queues[q], q));
  }

  /** The command of another queue goes to the end of a priority queue, and no position changes. */
  lemma OwnPushes(s: State, t: nat, q: nat, i: nat, qu: Queue, other: nat)
    requires Inv(s) && t < |s.threads| && Queued(s, q, i, qu)
    requires s.threads[t].pc == Pushing(other) || (s.threads[t].pc.Ready? && s.threads[t].held == Some(other))
    ensures other < |s.queues| && Queued(Pushed(s, other), q, i, qu)
  {
    assert ThreadOk(s, t);
  }

  lemma OwnDequeues(s: State, t: nat, q: nat, i: nat, qu: Queue)
    requires Inv(s) && t < |s.threads| && Queued(s, q, i, qu) && Enabled(s, t, Dequeue(1))
    ensures var s' := Apply(s, t, Dequeue(1));
            Queued(s', q, i, qu) && Work(s'.threads[t]) < Work(s.threads[t])
  {
    assert ThreadOk(s, t);
  }

  lemma OwnOther(s: State, t: nat, q: nat, i: nat, qu: Queue)
    requires Inv(s) && t < |s.threads| && Queued(s, q, i, qu)
    requires || s.threads[t].pc.Creating? || s.threads[t].pc.Finalizing?
             || (s.threads[t].pc.Ready? && s.threads[t].stash != [])
    requires Enabled(s, t, Own(s, t, 0))
    ensures var s' := Apply(s, t, Own(s, t, 0));
            Queued(s', q, i, qu) && Work(s'.threads[t]) < Work(s.threads[t])
  {
    assert ThreadOk(s, t);
  }

  /** A step of thread t's own moves q forward in its priority queue, or leaves t less to do. */
  lemma OwnMoves(s: State, t: nat, q: nat, i: nat, qu: Queue)
    requires Inv(s) && t < |s.threads| && Queued(s, q, i, qu)
    requires Allowed(s, t, Own(s, t, PriIndex(s.queues[q], q)))
    ensures var a := Own(s, t, PriIndex(s.queues[q], q));
            var s' := Apply(s, t, a);
            && |s'.threads| == |s.threads|
            && (a.Take? && i == 0 ==> s'.threads[t].pc == Hand(q) && q < |s'.queues| && Same(s'.queues[q], qu))
            && (a.Take? && i > 0 ==> Queued(s', q, i - 1, qu))
            && (!a.Take? ==> Queued(s', q, i, qu) && Work(s'.threads[t]) < Work(s.threads[t]))
  {
    var a := Own(s, t, PriIndex(s.queues[q], q));
    match a
    case Take(_) => OwnTakes(s, t, q, i, qu);
    case Push => OwnPushes(s, t, q, i, qu, s.threads[t].pc.q);
    case Release => OwnPushes(s, t, q, i, qu, s.threads[t].held.value);
    case Dequeue(_) => OwnDequeues(s, t, q, i, qu);
    case _ => OwnOther(s, t, q, i, qu);
  }

  lemma SoloKeepsInv(s: State, t: nat, a: Action)
    requires Inv(s) && t < |s.threads| && Allowed(s, t, a)
    ensures Inv(Apply(s, t, a))
  {
    assert Next(false, s, Apply(s, t, a));
    StepInv(s, Apply(s, t, a));
  }

  lemma Prepend(s: State, t: nat, a: Action, path: seq<State>)
    requires t < |s.threads| && Serving(a) && Allowed(s, t, a) && Solo(path, t) && path[0] == Apply(s, t, a)
    ensures Solo([s] + path, t) && Last([s] + path) == Last(path)
  {
    var longer := [s] + path;
    assert SoloStep(s, t, path[0]);
    forall i | 0 <= i < |longer| - 1
      ensures SoloStep(longer[i], t, longer[i + 1])
    {
      if i > 0 {
        assert longer[i] == path[i - 1] && longer[i + 1] == path[i];
      }
    }
  }

  /** Thread t works off the queues in front of q, and takes q. */
  lemma {:induction false} Reach(s: State, t: nat, q: nat, i: nat, qu: Queue) returns (path: seq<State>)
    requires Inv(s) && t < |s.threads| && Queued(s, q, i, qu)
    ensures Solo(path, t) && path[0] == s && t < |Last(path).threads| && q < |Last(path).queues|
    ensures Last(path).threads[t].pc == Hand(q) && Same(Last(path).queues[q], qu) && Inv(Last(path))
    decreases i, Work(s.threads[t])
  {
    var x := PriIndex(s.queues[q], q);
    var a := Own(s, t, x);
    OwnAllowed(s, t, x);
    SoloKeepsInv(s, t, a);
    OwnMoves(s, t, q, i, qu);
    var s' := Apply(s, t, a);
    if a.Take? && i == 0 {
      path := [s'];
    } else if a.Take? {
      path := Reach(s', t, q, i - 1, qu);
    } else {
      path := Reach(s', t, q, i, qu);
    }
    Prepend(s, t, a, path);
    path := [s] + path;
  }

  /** Thread t has the command of q, which is still like `qu`. */
  ghost predicate Has(s: State, t: nat, q: nat, qu: Queue)
  {
    && t < |s.threads| && q < |s.queues| && Same(s.queues[q], qu)
    && (s.queues[q].place == AtThread(t) || s.queues[q].place == HeldBy(t))
  }

  /** Thread t has taken the command of q off its priority queue, to dequeue or to finish it. */
  predicate Taken(s: State, t: nat, q: nat)
    requires t < |s.threads|
  {
    s.threads[t].pc == Hand(q) || s.threads[t].pc == Finalizing(q)
  }

  /** A thread that has the command of q otherwise puts it back with its last own step. */
  lemma OwnReturns(s: State, t: nat, q: nat, qu: Queue)
    requires Inv(s) && Has(s, t, q, qu) && !Taken(s, t, q)
    ensures Serving(Own(s, t, 0)) && Allowed(s, t, Own(s, t, 0))
    ensures var s' := Apply(s, t, Own(s, t, 0));
            || (Has(s', t, q, qu) && Work(s'.threads[t]) < Work(s.threads[t]) && !Taken(s', t, q))
            || exists i :: Queued(s', q, i, qu)
  {
    assert ThreadOk(s, t) && QueueOk(s, q);
    var a, s' := Own(s, t, 0), Apply(s, t, Own(s, t, 0));
    if (a.Push? && s.threads[t].pc.q == q) || (a.Release? && s.threads[t].held == Some(q)) {
      assert Queued(s', q, |s.pri[PriIndex(s.queues[q], q)]|, qu);
    }
  }

  lemma {:induction false} Return(s: State, t: nat, q: nat, qu: Queue) returns (path: seq<State>)
    requires Inv(s) && Has(s, t, q, qu)
    ensures Solo(path, t) && path[0] == s && t < |Last(path).threads| && q < |Last(path).queues|
    ensures Taken(Last(path), t, q) && Same(Last(path).queues[q], qu) && Inv(Last(path))
    decreases Work(s.threads[t])
  {
    if Taken(s, t, q) {
      path := [s];
    } else {
      var a := Own(s, t, 0);
      OwnReturns(s, t, q, qu);
      SoloKeepsInv(s, t, a);
      var s' := Apply(s, t, a);
      if i :| Queued(s', q, i, qu) {
        path := Reach(s', t, q, i, qu);
      } else {
        path := Return(s', t, q, qu);
      }
      Prepend(s, t, a, path);
      path := [s] + path;
    }
  }

  /** Some thread, going on alone, takes the command of any queue that has one about. */
  lemma TakesCommand(s: State, q: nat) returns (t: nat, path: seq<State>)
    requires Inv(s) && |s.threads| > 0 && q < |s.queues|
    requires s.queues[q].status.Sched? || s.queues[q].status.Destroyed?
    ensures Solo(path, t) && path[0] == s && t < |Last(path).threads| && q < |Last(path).queues|
    ensures Taken(Last(path), t, q) && Same(Last(path).queues[q], s.queues[q]) && Inv(Last(path))
  {
    var qu := s.queues[q];
    assert QueueOk(s, q);
    if qu.place.InPri? {
      var i :| 0 <= i < |s.pri[PriIndex(qu, q)]| && s.pri[PriIndex(qu, q)][i] == q;
      t := 0;
      path := Reach(s, t, q, i, qu);
    } else {
      t := qu.place.t;
      path := Return(s, t, q, qu);
    }
  }

  /**
   In every reachable state with a thread, every queue with events has a thread that, going on
   alone, comes to the point where its next step dequeues from that queue; the events still are
   the ones it had.
   */
  lemma CanBeServed(s: State, q: nat) returns (t: nat, path: seq<State>)
    requires Inv(s) && |s.threads| > 0 && q < |s.queues| && s.queues[q].list != []
    ensures Solo(path, t) && path[0] == s && t < |Last(path).threads| && q < |Last(path).queues|
    ensures Last(path).threads[t].pc == Hand(q) && Last(path).queues[q].list == s.queues[q].list
    ensures forall max :: max >= 1 ==> Allowed(Last(path), t, Dequeue(max))
  {
    assert QueueOk(s, q);
    t, path := TakesCommand(s, q);
    assert ThreadOk(Last(path), t);
  }

  // ---------------------------------------------------------------- the end of a queue

  /** Destroying an empty queue frees it at once, or leaves it to its command. */
  lemma DestroyTakes(s: State, t: nat, q: nat)
    requires Inv(s) && t < |s.threads| && s.threads[t].pc.Ready? && q < |s.queues| && s.queues[q].list == []
    requires s.queues[q].status.Sched? || (s.queues[q].status.NotSched? && s.queues[q].cmd)
    ensures Allowed(s, t, Destroy(q)) && q < |Apply(s, t, Destroy(q)).queues|
    ensures Apply(s, t, Destroy(q)).queues[q].status == if s.queues[q].status.Sched? then Destroyed else Free
  {
    assert QueueOk(s, q);
  }

  /** The command of a destroyed queue, once taken, is freed with the queue. */
  lemma FinalizeFrees(path: seq<State>, t: nat, q: nat) returns (longer: seq<State>)
    requires Solo(path, t) && Inv(Last(path)) && t < |Last(path).threads| && q < |Last(path).queues|
    requires Last(path).queues[q].status.Destroyed? && Taken(Last(path), t, q)
    ensures Solo(longer, t) && longer[0] == path[0] && q < |Last(longer).queues|
    ensures Last(longer).queues[q].status.Free? && !Last(longer).queues[q].cmd
  {
    longer := path;
    var s := Last(path);
    assert ThreadOk(s, t) && QueueOk(s, q);
    if s.threads[t].pc.Hand? {
      longer := After(longer, t, Dequeue(1));
    }
    longer := After(longer, t, Finalize);
  }

  lemma After(path: seq<State>, t: nat, a: Action) returns (longer: seq<State>)
    requires Solo(path, t) && Inv(Last(path)) && t < |Last(path).threads| && Serving(a) && Allowed(Last(path), t, a)
    ensures Solo(longer, t) && longer[0] == path[0] && Last(longer) == Apply(Last(path), t, a) && Inv(Last(longer))
  {
    var s := Last(path);
    SoloKeepsInv(s, t, a);
    assert SoloStep(s, t, Apply(s, t, a));
    longer := path + [Apply(s, t, a)];
    forall i | 0 <= i < |longer| - 1
      ensures SoloStep(longer[i], t, longer[i + 1])
    {
      if i < |path| - 1 {
        assert longer[i] == path[i] && longer[i + 1] == path[i + 1];
      }
    }
  }

  /** A destroyed queue does not stay: some thread, going on alone, frees it and its command. */
  lemma DestroyedIsFreed(s: State, q: nat) returns (t: nat, path: seq<State>)
    requires Inv(s) && |s.threads| > 0 && q < |s.queues| && s.queues[q].status.Destroyed?
    ensures Solo(path, t) && path[0] == s && q < |Last(path).queues|
    ensures Last(path).queues[q].status.Free? && !Last(path).queues[q].cmd
  {
    t, path := TakesCommand(s, q);
    path := FinalizeFrees(path, t, q);
  }

  // ---------------------------------------------------------------- users are free

  /** A thread between calls may enqueue any batch to any live queue, destroy any, and create any free one. */
  lemma AnyCall(s: State, t: nat, q: nat)
    requires Inv(s) && t < |s.threads| && s.threads[t].pc.Ready? && q < |s.queues|
    ensures s.queues[q].status.Free? ==> forall atomic, prio: nat ::
              prio < PRIOS ==> Allowed(s, t, Create(q, atomic, prio))
    ensures s.queues[q].cmd ==> Allowed(s, t, Destroy(q)) && forall n :: n >= 1 ==> Allowed(s, t, Enqueue(q, n))
    ensures s.queues[q].cmd && s.queues[q].status.Usable() ==>
              forall n :: n >= 1 ==>
                Apply(s, t, Enqueue(q, n)).queues[q].list == s.queues[q].list + Range(|s.events|, n)
  {
    assert QueueOk(s, q);
  }

  /** A thread with a batch may deliver any part of it from the front. */
  lemma AnyPart(s: State, t: nat, n: nat)
    requires Inv(s) && t < |s.threads| && 1 <= n <= |s.threads[t].stash|
    requires s.threads[t].pc.Ready? || s.threads[t].pc.Pushing?
    ensures Allowed(s, t, Deliver(n)) && t < |Apply(s, t, Deliver(n)).threads|
    ensures Apply(s, t, Deliver(n)).threads[t].stash == s.threads[t].stash[n..]
    ensures forall e :: e in s.threads[t].stash[..n] ==>
              e < |s.events| && Apply(s, t, Deliver(n)).events[e] == Delivered
  {
    assert ThreadOk(s, t);
    assert forall e :: e in s.threads[t].stash[..n] ==> e in s.threads[t].stash;
  }

  /** A thread that is not in the group of the queue it took puts the queue back as it was, behind the others. */
  lemma NotEligibleReturns(s: State, t: nat, q: nat)
    requires Inv(s) && t < |s.threads| && s.threads[t].pc == Hand(q) && q < |s.queues|
    ensures Allowed(s, t, NotEligible) && Allowed(Apply(s, t, NotEligible), t, Push)
    ensures var s' := Apply(Apply(s, t, NotEligible), t, Push);
            && q < |s'.queues| && Same(s'.queues[q], s.queues[q]) && s'.events == s.events
            && s'.pri == s.pri[PriIndex(s.queues[q], q) := s.pri[PriIndex(s.queues[q], q)] + [q]]
  {
    assert ThreadOk(s, t) && QueueOk(s, q);
  }
}
