/**
 The invariant of the scheduler: where each command is, where each event is, and what
 the priority mask says.  Every step keeps it, so it holds in every state of every run.
 */
module SchedulerInvariant {
  import opened Options
  import opened QueueStatus
  import opened Scheduler

  /** The queue whose command a thread has in its hands. */
  function InHands(pc: Pc): Option<nat>
  {
    if pc.Pushing? || pc.Hand? || pc.Finalizing? then Some(pc.q) else None
  }

  ghost predicate QueueOk(s: State, q: nat)
    requires WellFormed(s) && q < |s.queues|
  {
    var qu := s.queues[q];
    && !qu.status.Plain?
    && (qu.list != [] ==> qu.status.Sched?)
    && (qu.status.Free? ==> qu.place.Nowhere? && !qu.cmd)
    && (qu.cmd <==> !qu.status.Free? && !qu.place.Building?)
    && (qu.status.Sched? || qu.status.Destroyed? <==> !qu.place.Nowhere? && !qu.place.Building?)
    && match qu.place
       case Nowhere => true
       case InPri => q in s.pri[PriIndex(qu, q)]
       case Building(t) => t < |s.threads| && s.threads[t].pc == Creating(q)
       case AtThread(t) => t < |s.threads| && InHands(s.threads[t].pc) == Some(q)
       case HeldBy(t) => qu.atomic && t < |s.threads| && s.threads[t].held == Some(q)
  }

  ghost predicate ThreadOk(s: State, t: nat)
    requires t < |s.threads|
  {
    var th := s.threads[t];
    && (InHands(th.pc).Some? ==> th.pc.q < |s.queues| && s.queues[th.pc.q].place == AtThread(t))
    && (th.pc.Creating? ==> th.pc.q < |s.queues| && s.queues[th.pc.q].place == Building(t))
    && (th.pc.Finalizing? ==> s.queues[th.pc.q].status.Destroyed?)
    && (th.pc.Hand? || th.pc.Finalizing? ==> th.stash == [] && th.held.None?)
    && (th.held.Some? ==> th.held.value < |s.queues| && s.queues[th.held.value].place == HeldBy(t))
    && (th.held.Some? && th.stash != [] ==> th.from == th.held.value)
    && (th.stash != [] ==> th.from < |s.queues|)
  }

  ghost predicate PriOk(s: State, x: nat)
    requires WellFormed(s) && x < |s.pri|
  {
    && (forall i :: 0 <= i < |s.pri[x]| ==>
          && s.pri[x][i] < |s.queues|
          && PriIndex(s.queues[s.pri[x][i]], s.pri[x][i]) == x
          && s.queues[s.pri[x][i]].place.InPri?)
    && (forall i, j :: 0 <= i < j < |s.pri[x]| ==> s.pri[x][i] != s.pri[x][j])
  }

  /** Every command is in exactly the place its queue says. */
  ghost predicate Tokens(s: State)
  {
    && WellFormed(s)
    && (forall q :: 0 <= q < |s.queues| ==> QueueOk(s, q))
    && (forall t :: 0 <= t < |s.threads| ==> ThreadOk(s, t))
    && (forall x :: 0 <= x < |s.pri| ==> PriOk(s, x))
  }

  /** The queues served by priority queue x. */
  ghost function Served(s: State, x: nat): set<nat>
  {
    set q | 0 <= q < |s.queues| && s.queues[q].cmd && PriIndex(s.queues[q], q) == x
  }

  /** Counts are the numbers of live queues, and a mask bit is set iff its count is positive. */
  ghost predicate Masks(s: State)
  {
    && WellFormed(s)
    && (forall x :: 0 <= x < |s.count| ==> s.count[x] == |Served(s, x)|)
    && (forall p, id :: 0 <= p < PRIOS && 0 <= id < PER_PRIO ==>
          (IsSet(s.mask[p], id) <==> s.count[p * PER_PRIO + id] > 0))
  }

  /** The undelivered events of the atomic context of queue q. */
  function Pending(s: State, q: nat): seq<nat>
    requires q < |s.queues|
  {
    var p := s.queues[q].place;
    if p.HeldBy? && p.t < |s.threads| then s.threads[p.t].stash else []
  }

  /** What came into an atomic queue is what went out, is pending, or is queued, in that order. */
  ghost predicate OrderOk(s: State, q: nat)
    requires q < |s.queues|
  {
    s.queues[q].atomic && !s.queues[q].status.Free? ==>
      s.queues[q].came == s.queues[q].went + Pending(s, q) + s.queues[q].list
  }

  ghost predicate Orders(s: State)
  {
    forall q :: 0 <= q < |s.queues| ==> OrderOk(s, q)
  }

  ghost predicate Distinct(es: seq<nat>)
  {
    forall i, j :: 0 <= i < j < |es| ==> es[i] != es[j]
  }

  ghost predicate EventOk(s: State, e: nat)
    requires e < |s.events|
  {
    var p := s.events[e];
    && (p.InList? ==> p.q < |s.queues| && e in s.queues[p.q].list)
    && (p.InStash? ==> p.t < |s.threads| && e in s.threads[p.t].stash)
  }

  /** Every event is in exactly one queue, one stash, or delivered. */
  ghost predicate Ledger(s: State)
  {
    && (forall q :: 0 <= q < |s.queues| ==>
          && Distinct(s.queues[q].list)
          && forall e :: e in s.queues[q].list ==> e < |s.events| && s.events[e] == InList(q))
    && (forall t :: 0 <= t < |s.threads| ==>
          && Distinct(s.threads[t].stash)
          && forall e :: e in s.threads[t].stash ==> e < |s.events| && s.events[e] == InStash(t))
    && (forall e :: 0 <= e < |s.events| ==> EventOk(s, e))
  }

  /** What a queue has handed out has been delivered. */
  ghost predicate HandedBy(s: State, q: nat)
    requires q < |s.queues|
  {
    forall e :: e in s.queues[q].went ==> e < |s.events| && s.events[e] == Delivered
  }

  ghost predicate Handed(s: State)
  {
    forall q :: 0 <= q < |s.queues| ==> HandedBy(s, q)
  }

  ghost predicate Inv(s: State)
  {
    Tokens(s) && Masks(s) && Orders(s) && Ledger(s) && Handed(s)
  }

  lemma InitInv(s: State)
    requires Init(s)
    ensures Inv(s)
  {
    forall x | 0 <= x < |s.count|
      ensures s.count[x] == |Served(s, x)|
    {
      assert Served(s, x) == {};
    }
    forall p, id | 0 <= p < PRIOS && 0 <= id < PER_PRIO
      ensures !IsSet(s.mask[p], id)
    {
      assert s.mask[p] == 0;
      assert (0 as bv8) & Bit(id) == 0;
    }
  }

  // ---------------------------------------------------------------- commands

  /** Whether a place names a thread other than t. */
  predicate Elsewhere(p: Place, t: nat)
  {
    (p.Building? || p.AtThread? || p.HeldBy?) && p.t != t
  }

  /** A step of thread t that touches queue q and its priority queue only. */
  lemma TokenFrame(s: State, s': State, t: nat, q: nat)
    requires Tokens(s) && t < |s.threads| && q < |s.queues|
    requires |s'.threads| == |s.threads| && s'.threads == s.threads[t := s'.threads[t]]
    requires |s'.queues| == |s.queues| && s'.queues == s.queues[q := s'.queues[q]]
    requires WellFormed(s') && QueueOk(s', q) && ThreadOk(s', t)
    requires forall x :: 0 <= x < |s.pri| ==> PriOk(s', x)
    requires forall x, r :: 0 <= x < |s.pri| && r != q && r in s.pri[x] ==> r in s'.pri[x]
    // what thread t had of other queues it still has
    requires InHands(s.threads[t].pc) in {None, Some(q)} || s'.threads[t].pc == s.threads[t].pc
    requires s.threads[t].pc.Creating? ==> s.threads[t].pc.q == q || s'.threads[t].pc == s.threads[t].pc
    requires s.threads[t].held in {None, Some(q)} || s'.threads[t].held == s.threads[t].held
    // what another thread has of queue q it still has
    requires Elsewhere(s.queues[q].place, t) ==> s'.queues[q].place == s.queues[q].place
    requires Elsewhere(s.queues[q].place, t) && s.queues[q].status.Destroyed? ==> s'.queues[q].status.Destroyed?
    ensures Tokens(s')
  {
    forall r | 0 <= r < |s.queues|
      ensures QueueOk(s', r)
    {
      assert QueueOk(s, r);
    }
    forall u | 0 <= u < |s.threads|
      ensures ThreadOk(s', u)
    {
      assert ThreadOk(s, u);
    }
  }

  /** Priority queues are untouched by a step that keeps the place of q if it is there. */
  lemma PriFrame(s: State, s': State, q: nat)
    requires Tokens(s) && WellFormed(s') && q < |s.queues| && s'.pri == s.pri
    requires |s'.queues| == |s.queues| && s'.queues == s.queues[q := s'.queues[q]]
    requires s.queues[q].place.InPri? ==> s'.queues[q].place.InPri? && s'.queues[q].prio == s.queues[q].prio
    ensures forall x :: 0 <= x < |s'.pri| ==> PriOk(s', x)
  {
    forall x | 0 <= x < |s.pri|
      ensures PriOk(s', x)
    {
      assert PriOk(s, x);
    }
  }

  lemma CreateTokens(s: State, t: nat, a: Action)
    requires Tokens(s) && t < |s.threads| && (a.Create? || a.InitCommand?) && Allowed(s, t, a)
    ensures Tokens(Apply(s, t, a))
  {
    assert ThreadOk(s, t);
    var s' := Apply(s, t, a);
    var q := if a.Create? then a.q else s.threads[t].pc.q;
    assert QueueOk(s, q);
    PriFrame(s, s', q);
    TokenFrame(s, s', t, q);
  }

  lemma EnqueueTokens(s: State, t: nat, a: Action)
    requires Tokens(s) && t < |s.threads| && a.Enqueue? && Allowed(s, t, a)
    ensures Tokens(Apply(s, t, a))
  {
    assert ThreadOk(s, t) && QueueOk(s, a.q);
    var s' := Apply(s, t, a);
    if s.queues[a.q].status.Sched? || s.queues[a.q].status.NotSched? {
      assert WellFormed(s');
      assert QueueOk(s', a.q);
      assert ThreadOk(s', t);
      PriFrame(s, s', a.q);
      TokenFrame(s, s', t, a.q);
    }
  }

  lemma PushedTokens(s: State, t: nat, q: nat, th: Thread)
    requires Tokens(s) && t < |s.threads| && q < |s.queues| && s.queues[q].place in {AtThread(t), HeldBy(t)}
    requires s.queues[q].place.AtThread? ==> th == s.threads[t].(pc := Ready)
    requires s.queues[q].place.HeldBy? ==> th == s.threads[t].(held := None) && th.pc.Ready?
    ensures Tokens(WithThread(Pushed(s, q), t, th))
  {
    assert ThreadOk(s, t) && QueueOk(s, q);
    var s' := WithThread(Pushed(s, q), t, th);
    forall x | 0 <= x < |s.pri|
      ensures PriOk(s', x)
    {
      assert PriOk(s, x);
    }
    TokenFrame(s, s', t, q);
  }

  lemma PushTokens(s: State, t: nat, a: Action)
    requires Tokens(s) && t < |s.threads| && (a.Push? || a.Release?) && Allowed(s, t, a)
    ensures Tokens(Apply(s, t, a))
  {
    assert ThreadOk(s, t);
    var th := s.threads[t];
    if a.Push? {
      PushedTokens(s, t, th.pc.q, th.(pc := Ready));
    } else {
      PushedTokens(s, t, th.held.value, th.(held := None));
    }
  }

  lemma TakeTokens(s: State, t: nat, a: Action)
    requires Tokens(s) && t < |s.threads| && a.Take? && Allowed(s, t, a)
    ensures Tokens(Apply(s, t, a))
  {
    var q := s.pri[a.x][0];
    assert ThreadOk(s, t) && PriOk(s, a.x) && QueueOk(s, q);
    var s' := Apply(s, t, a);
    forall x | 0 <= x < |s.pri|
      ensures PriOk(s', x)
    {
      assert PriOk(s, x);
    }
    TokenFrame(s, s', t, q);
  }

  lemma DequeueTokens(s: State, t: nat, a: Action)
    requires Tokens(s) && t < |s.threads| && (a.NotEligible? || a.Dequeue?) && Allowed(s, t, a)
    ensures Tokens(Apply(s, t, a))
  {
    assert ThreadOk(s, t);
    var q := s.threads[t].pc.q;
    assert QueueOk(s, q);
    var s' := Apply(s, t, a);
    PriFrame(s, s', q);
    TokenFrame(s, s', t, q);
  }

  lemma DeliverTokens(s: State, t: nat, a: Action)
    requires Tokens(s) && t < |s.threads| && a.Deliver? && Allowed(s, t, a)
    ensures Tokens(Apply(s, t, a))
  {
    assert ThreadOk(s, t);
    var q := s.threads[t].from;
    assert QueueOk(s, q);
    var s' := Apply(s, t, a);
    PriFrame(s, s', q);
    TokenFrame(s, s', t, q);
  }

  lemma FinalizeTokens(s: State, t: nat)
    requires Tokens(s) && t < |s.threads| && Allowed(s, t, Finalize)
    ensures Tokens(Apply(s, t, Finalize))
  {
    assert ThreadOk(s, t);
    var q := s.threads[t].pc.q;
    assert QueueOk(s, q);
    var s' := Apply(s, t, Finalize);
    PriFrame(s, s', q);
    TokenFrame(s, s', t, q);
  }

  lemma DestroyTokens(s: State, t: nat, q: nat)
    requires Tokens(s) && t < |s.threads| && Allowed(s, t, Destroy(q))
    ensures Tokens(Apply(s, t, Destroy(q)))
  {
    assert ThreadOk(s, t) && QueueOk(s, q);
    var s' := Apply(s, t, Destroy(q));
    PriFrame(s, s', q);
    TokenFrame(s, s', t, q);
  }

  // ---------------------------------------------------------------- mask and counts

  /** Steps that neither give nor take a command leave mask and counts right. */
  lemma MaskFrame(s: State, s': State)
    requires Masks(s) && WellFormed(s') && |s'.queues| == |s.queues| && s'.mask == s.mask && s'.count == s.count
    requires forall q :: 0 <= q < |s.queues| ==>
               s'.queues[q].cmd == s.queues[q].cmd && (s.queues[q].cmd ==> s'.queues[q].prio == s.queues[q].prio)
    ensures Masks(s')
  {
    forall x | 0 <= x < |s.count|
      ensures Served(s', x) == Served(s, x)
    {
      assert forall q :: q in Served(s, x) <==> q in Served(s', x);
    }
  }

  lemma SetServed(s: State, q: nat)
    requires WellFormed(s) && q < |s.queues| && !s.queues[q].cmd
    ensures forall x {:trigger Served(s, x)} :: 0 <= x < |s.count| ==>
              |Served(WithCommand(s, q), x)| == if x == PriIndex(s.queues[q], q) then |Served(s, x)| + 1
                  else |Served(s, x)|
  {
    var s' := WithCommand(s, q);
    forall x {:trigger Served(s, x)} | 0 <= x < |s.count|
      ensures |Served(s', x)| == if x == PriIndex(s.queues[q], q) then |Served(s, x)| + 1 else |Served(s, x)|
    {
      assert q !in Served(s, x);
      assert Served(s', x) == if x == PriIndex(s.queues[q], q) then Served(s, x) + {q} else Served(s, x);
    }
  }

  /** pri_set keeps counts and mask in step. */
  lemma SetMasks(s: State, q: nat)
    requires Masks(s) && q < |s.queues| && !s.queues[q].cmd
    ensures Masks(WithCommand(s, q))
  {
    var s', qu := WithCommand(s, q), s.queues[q];
    var x0 := PriIndex(qu, q);
    SetServed(s, q);
    MaskChange(s, s', qu.prio, q % PER_PRIO, s.count[x0] + 1);
  }

  /** pri_clr keeps counts and mask in step. */
  lemma ClearMasks(s: State, q: nat)
    requires Masks(s) && q < |s.queues| && s.queues[q].cmd
    ensures Masks(WithoutCommand(s, q))
  {
    var s', qu := WithoutCommand(s, q), s.queues[q];
    var x0 := PriIndex(qu, q);
    assert q in Served(s, x0);
    forall x | 0 <= x < |s.count|
      ensures Served(s', x) == if x == x0 then Served(s, x) - {q} else Served(s, x)
    {
    }
    MaskChange(s, s', qu.prio, q % PER_PRIO, s.count[x0] - 1);
  }

  /** One bit of one mask, when one count changes and its bit follows. */
  lemma BitChange(s: State, s': State, p0: nat, id0: nat, n: int, p: nat, id: nat)
    requires WellFormed(s) && WellFormed(s') && p0 < PRIOS && id0 < PER_PRIO && n >= 0 && p < PRIOS && id < PER_PRIO
    requires s'.count == s.count[p0 * PER_PRIO + id0 := n]
    requires n > 0 ==>
               s'.mask == s.mask[p0 := s.mask[p0] | Bit(id0)]
               || (s.count[p0 * PER_PRIO + id0] > 0 && s'.mask == s.mask)
    requires n == 0 ==> s'.mask == s.mask[p0 := s.mask[p0] & !Bit(id0)]
    requires IsSet(s.mask[p], id) <==> s.count[p * PER_PRIO + id] > 0
    ensures IsSet(s'.mask[p], id) <==> s'.count[p * PER_PRIO + id] > 0
  {
    SetBit(s.mask[p], id0, id);
    ClearBit(s.mask[p], id0, id);
  }

  /** One count changes and its bit follows; every other bit keeps matching its count. */
  lemma MaskChange(s: State, s': State, p0: nat, id0: nat, n: int)
    requires Masks(s) && WellFormed(s') && p0 < PRIOS && id0 < PER_PRIO && n >= 0
    requires s'.count == s.count[p0 * PER_PRIO + id0 := n]
    requires n > 0 ==>
               s'.mask == s.mask[p0 := s.mask[p0] | Bit(id0)]
               || (s.count[p0 * PER_PRIO + id0] > 0 && s'.mask == s.mask)
    requires n == 0 ==> s'.mask == s.mask[p0 := s.mask[p0] & !Bit(id0)]
    ensures forall p, id :: 0 <= p < PRIOS && 0 <= id < PER_PRIO ==>
              (IsSet(s'.mask[p], id) <==> s'.count[p * PER_PRIO + id] > 0)
  {
    forall p, id | 0 <= p < PRIOS && 0 <= id < PER_PRIO
      ensures IsSet(s'.mask[p], id) <==> s'.count[p * PER_PRIO + id] > 0
    {
      assert IsSet(s.mask[p], id) <==> s.count[p * PER_PRIO + id] > 0;
      BitChange(s, s', p0, id0, n, p, id);
    }
  }

  lemma StepMasks(s: State, t: nat, a: Action)
    requires Tokens(s) && Masks(s) && t < |s.threads| && Allowed(s, t, a)
    ensures Masks(Apply(s, t, a))
  {
    var s' := Apply(s, t, a);
    assert ThreadOk(s, t);
    match a
    case InitCommand =>
      var q := s.threads[t].pc.q;
      assert QueueOk(s, q);
      SetMasks(s, q);
      MaskFrame(WithCommand(s, q), s');
    case Finalize =>
      var q := s.threads[t].pc.q;
      assert QueueOk(s, q);
      ClearMasks(s, q);
      MaskFrame(WithoutCommand(s, q), s');
    case Destroy(q) =>
      assert QueueOk(s, q);
      if s.queues[q].status.NotSched? && s.queues[q].list == [] {
        ClearMasks(s, q);
      } else {
        MaskFrame(s, s');
      }
    case Create(q, _, _) =>
      assert QueueOk(s, q);
      MaskFrame(s, s');
    case _ => OtherMasks(s, t, a);
  }

  lemma OtherMasks(s: State, t: nat, a: Action)
    requires Masks(s) && t < |s.threads| && Allowed(s, t, a)
    requires !a.InitCommand? && !a.Finalize? && !a.Destroy? && !a.Create?
    ensures Masks(Apply(s, t, a))
  {
    MaskFrame(s, Apply(s, t, a));
  }

  // ---------------------------------------------------------------- order of atomic queues

  lemma OrderEnqueue(s: State, t: nat, a: Action, q: nat)
    requires Tokens(s) && t < |s.threads| && a.Enqueue? && Allowed(s, t, a) && q < |s.queues| && OrderOk(s, q)
    ensures OrderOk(Apply(s, t, a), q)
  {
    assert ThreadOk(s, t) && QueueOk(s, q);
    var qu, es := s.queues[q], Range(|s.events|, a.n);
    assert qu.went + Pending(s, q) + (qu.list + es) == qu.went + Pending(s, q) + qu.list + es;
  }

  lemma OrderDequeue(s: State, t: nat, a: Action, q: nat)
    requires Tokens(s) && t < |s.threads| && a.Dequeue? && Allowed(s, t, a) && q < |s.queues| && OrderOk(s, q)
    ensures OrderOk(Apply(s, t, a), q)
  {
    assert ThreadOk(s, t) && QueueOk(s, q);
    var qu := s.queues[q];
    if q == s.threads[t].pc.q && qu.list != [] {
      var n := if a.max < |qu.list| then a.max else |qu.list|;
      assert qu.went + [] + qu.list == qu.went + qu.list[..n] + qu.list[n..];
    }
  }

  lemma OrderDeliver(s: State, t: nat, a: Action, q: nat)
    requires Tokens(s) && t < |s.threads| && a.Deliver? && Allowed(s, t, a) && q < |s.queues| && OrderOk(s, q)
    ensures OrderOk(Apply(s, t, a), q)
  {
    assert ThreadOk(s, t) && QueueOk(s, q);
    var qu, es := s.queues[q], s.threads[t].stash;
    if qu.place == HeldBy(t) {
      assert qu.went + es + qu.list == qu.went + es[..a.n] + es[a.n..] + qu.list;
    }
  }

  /** The other steps move no event. */
  lemma OrderOther(s: State, t: nat, a: Action, q: nat)
    requires Tokens(s) && t < |s.threads| && !a.Enqueue? && !a.Dequeue? && !a.Deliver? && Allowed(s, t, a)
    requires q < |s.queues| && OrderOk(s, q)
    ensures OrderOk(Apply(s, t, a), q)
  {
    assert ThreadOk(s, t) && QueueOk(s, q);
    var s' := Apply(s, t, a);
    if a.Create? {
      assert q == a.q ==> s'.queues[q].came == [] + [] + [];
    } else if a.Take? {
      assert PriOk(s, a.x);
    } else if q < |s'.queues| && s'.queues[q].place == s.queues[q].place {
      assert Pending(s', q) == Pending(s, q);
    }
  }

  lemma StepOrders(s: State, t: nat, a: Action)
    requires Tokens(s) && Orders(s) && t < |s.threads| && Allowed(s, t, a)
    ensures Orders(Apply(s, t, a))
  {
    forall q | 0 <= q < |s.queues|
      ensures OrderOk(Apply(s, t, a), q)
    {
      match a
      case Enqueue(_, _) => OrderEnqueue(s, t, a, q);
      case Dequeue(_) => OrderDequeue(s, t, a, q);
      case Deliver(_) => OrderDeliver(s, t, a, q);
      case _ => OrderOther(s, t, a, q);
    }
  }

  // ---------------------------------------------------------------- the ledger of events

  lemma LedgerFrame(s: State, s': State)
    requires Ledger(s) && |s'.queues| == |s.queues| && |s'.threads| == |s.threads| && s'.events == s.events
    requires forall q :: 0 <= q < |s.queues| ==> s'.queues[q].list == s.queues[q].list
    requires forall t :: 0 <= t < |s.threads| ==> s'.threads[t].stash == s.threads[t].stash
    ensures Ledger(s')
  {
    forall e | 0 <= e < |s'.events|
      ensures EventOk(s', e)
    {
      assert EventOk(s, e);
    }
  }

  lemma RangeHas(from: nat, n: nat)
    ensures forall e :: e in Range(from, n) <==> from <= e < from + n
  {
    forall e | from <= e < from + n
      ensures e in Range(from, n)
    {
      assert Range(from, n)[e - from] == e;
    }
  }

  lemma DistinctAppend(es: seq<nat>, fs: seq<nat>)
    requires Distinct(es) && Distinct(fs) && forall e, f :: e in es && f in fs ==> e < f
    ensures Distinct(es + fs)
  {
    forall i, j | 0 <= i < j < |es + fs|
      ensures (es + fs)[i] != (es + fs)[j]
    {
      if i < |es| <= j {
        assert es[i] in es && fs[j - |es|] in fs;
      }
    }
  }

  lemma EnqueueLedger(s: State, t: nat, a: Action)
    requires Ledger(s) && t < |s.threads| && a.Enqueue? && Allowed(s, t, a)
    ensures Ledger(Apply(s, t, a))
  {
    if s.queues[a.q].status.Usable() {
      var s' := Apply(s, t, a);
      AddLedger(s, a.q, a.n, s');
    }
  }

  /** n new events at the end of the list of queue q. */
  lemma AddLedger(s: State, q: nat, n: nat, s': State)
    requires Ledger(s) && q < |s.queues| && |s'.queues| == |s.queues| && |s'.threads| == |s.threads|
    requires s'.events == s.events + Repeat(InList(q), n)
    requires s'.queues[q].list == s.queues[q].list + Range(|s.events|, n)
    requires forall r :: 0 <= r < |s.queues| && r != q ==> s'.queues[r].list == s.queues[r].list
    requires forall t :: 0 <= t < |s.threads| ==> s'.threads[t].stash == s.threads[t].stash
    ensures Ledger(s')
  {
    RangeHas(|s.events|, n);
    DistinctAppend(s.queues[q].list, Range(|s.events|, n));
    forall e | 0 <= e < |s'.events|
      ensures EventOk(s', e)
    {
      if e < |s.events| {
        assert EventOk(s, e);
      }
    }
  }

  lemma DequeueLedger(s: State, t: nat, a: Action)
    requires Tokens(s) && Ledger(s) && t < |s.threads| && a.Dequeue? && Allowed(s, t, a)
    ensures Ledger(Apply(s, t, a))
  {
    var s', q := Apply(s, t, a), s.threads[t].pc.q;
    assert ThreadOk(s, t);
    var qu := s.queues[q];
    assert QueueOk(s, q);
    if qu.list != [] {
      var n := if a.max < |qu.list| then a.max else |qu.list|;
      SplitDistinct(qu.list, n);
      forall e | 0 <= e < |s'.events|
        ensures EventOk(s', e)
      {
        assert EventOk(s, e);
      }
    } else {
      LedgerFrame(s, s');
    }
  }

  /** The two parts of a list without repetition are disjoint and together the whole. */
  lemma SplitDistinct(es: seq<nat>, n: nat)
    requires Distinct(es) && n <= |es|
    ensures Distinct(es[..n]) && Distinct(es[n..])
    ensures forall e :: e in es <==> e in es[..n] || e in es[n..]
    ensures forall e :: !(e in es[..n] && e in es[n..])
  {
    assert es == es[..n] + es[n..];
  }

  lemma DeliverLedger(s: State, t: nat, a: Action)
    requires Ledger(s) && t < |s.threads| && a.Deliver? && Allowed(s, t, a)
    ensures Ledger(Apply(s, t, a))
  {
    var s' := Apply(s, t, a);
    SplitDistinct(s.threads[t].stash, a.n);
    forall e | 0 <= e < |s'.events|
      ensures EventOk(s', e)
    {
      assert EventOk(s, e);
    }
  }

  lemma StepLedger(s: State, t: nat, a: Action)
    requires Tokens(s) && Ledger(s) && t < |s.threads| && Allowed(s, t, a)
    ensures Ledger(Apply(s, t, a))
  {
    match a
    case Enqueue(_, _) => EnqueueLedger(s, t, a);
    case Dequeue(_) => DequeueLedger(s, t, a);
    case Deliver(_) => DeliverLedger(s, t, a);
    case Create(q, _, _) =>
      assert QueueOk(s, q);
      LedgerFrame(s, Apply(s, t, a));
    case _ => LedgerFrame(s, Apply(s, t, a));
  }

  /** Delivered events stay delivered, and only these are recorded as handed out. */
  lemma StepHanded(s: State, t: nat, a: Action)
    requires Tokens(s) && Ledger(s) && Handed(s) && t < |s.threads| && Allowed(s, t, a)
    ensures Handed(Apply(s, t, a))
  {
    var s' := Apply(s, t, a);
    forall q | 0 <= q < |s.queues|
      ensures HandedBy(s', q)
    {
      assert HandedBy(s, q);
      if a.Deliver? {
        DeliverHanded(s, t, a, q);
      } else if a.Dequeue? {
        DequeueHanded(s, t, a, q);
      }
    }
  }

  lemma DeliverHanded(s: State, t: nat, a: Action, q: nat)
    requires Ledger(s) && q < |s.queues| && HandedBy(s, q) && t < |s.threads| && a.Deliver? && Allowed(s, t, a)
    ensures HandedBy(Apply(s, t, a), q)
  {
    var s', es := Apply(s, t, a), s.threads[t].stash[..a.n];
    forall e | e in s'.queues[q].went
      ensures e < |s'.events| && s'.events[e] == Delivered
    {
      assert e in s.queues[q].went || (e in es && e in s.threads[t].stash);
    }
  }

  lemma DequeueHanded(s: State, t: nat, a: Action, q: nat)
    requires Ledger(s) && q < |s.queues| && HandedBy(s, q) && t < |s.threads| && a.Dequeue? && Allowed(s, t, a)
    ensures HandedBy(Apply(s, t, a), q)
  {
    var s', list := Apply(s, t, a), s.queues[s.threads[t].pc.q].list;
    forall e | e in s'.queues[q].went
      ensures e < |s'.events| && s'.events[e] == Delivered
    {
      assert e in s.queues[q].went && e !in list;
    }
  }

  // ---------------------------------------------------------------- every run

  lemma StepInv(s: State, s': State)
    requires Inv(s) && Next(false, s, s')
    ensures Inv(s')
  {
    var t: nat, a :| t < |s.threads| && Allowed(s, t, a) && s' == Apply(s, t, a);
    StepMasks(s, t, a);
    StepOrders(s, t, a);
    StepLedger(s, t, a);
    StepHanded(s, t, a);
    match a
    case Create(_, _, _) => CreateTokens(s, t, a);
    case InitCommand => CreateTokens(s, t, a);
    case Enqueue(_, _) => EnqueueTokens(s, t, a);
    case Push => PushTokens(s, t, a);
    case Release => PushTokens(s, t, a);
    case Take(_) => TakeTokens(s, t, a);
    case Deliver(_) => DeliverTokens(s, t, a);
    case Finalize => FinalizeTokens(s, t);
    case Destroy(q) => DestroyTokens(s, t, q);
    case _ => DequeueTokens(s, t, a);
  }

  lemma {:induction false} RunInv(run: seq<State>)
    requires IsRun(false, run)
    ensures Inv(run[|run| - 1])
  {
    if |run| == 1 {
      InitInv(run[0]);
    } else {
      RunPrefix(run);
      var was := run[..|run| - 1];
      RunInv(was);
      StepInv(was[|was| - 1], run[|run| - 1]);
    }
  }

  lemma RunPrefix(run: seq<State>)
    requires IsRun(false, run) && |run| > 1
    ensures IsRun(false, run[..|run| - 1]) && Next(false, run[..|run| - 1][|run| - 2], run[|run| - 1])
  {
    var was := run[..|run| - 1];
    forall i | 0 <= i < |was| - 1
      ensures Next(false, was[i], was[i + 1])
    {
      assert Next(false, run[i], run[i + 1]);
    }
    var k := |run| - 2;
    assert Next(false, run[k], run[k + 1]);
  }
}
