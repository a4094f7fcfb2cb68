/**
 The event scheduler and the status machine of scheduled queues, as a system of
 atomic steps: each section under a queue lock is one step, and any number of
 threads enqueue, schedule, release, create and destroy in any order.

 Every scheduled queue owns one command.  The command is on its priority queue, in
 the hands of one thread, kept by one thread as its atomic context, or nowhere; a
 queue's `place` records which, as a history variable that no guard reads.
 */
module Scheduler {
  import opened Options
  import opened QueueStatus

  /** ODP_CONFIG_SCHED_PRIOS and QUEUES_PER_PRIO */
  const PRIOS: nat := 8
  const PER_PRIO: nat := 4

  datatype Place = Nowhere | Building(t: nat) | InPri | AtThread(t: nat) | HeldBy(t: nat)

  /**
   `cmd`: the queue has a command event.  `came`, `went`: the events enqueued since the
   queue was created, and those handed out under its atomic context.
   */
  datatype Queue = Queue(status: Status, atomic: bool, prio: nat, list: seq<nat>, cmd: bool,
                         place: Place, came: seq<nat>, went: seq<nat>)

  datatype Pc =
    | Ready
    | Creating(q: nat)  // queue taken, schedule_queue_init still to come
    | Pushing(q: nat)   // about to put the command on its priority queue
    | Hand(q: nat)      // command taken off its priority queue
    | Finalizing(q: nat) // queue_deq_multi found a destroyed queue

  /** sched_local: pre-scheduled events and their source, and the atomic context. */
  datatype Thread = Thread(stash: seq<nat>, from: nat, held: Option<nat>, pc: Pc)

  datatype EventPlace = InList(q: nat) | InStash(t: nat) | Delivered

  /** `events`: where each event is, indexed by the order of enqueueing. */
  datatype State = State(queues: seq<Queue>, pri: seq<seq<nat>>, mask: seq<bv8>, count: seq<int>,
                         threads: seq<Thread>, events: seq<EventPlace>)

  // ---------------------------------------------------------------- priority mask

  /** 1 << id, for the four queues of a priority. */
  function Bit(id: nat): bv8
    requires id < PER_PRIO
  {
    if id == 0 then 1 else if id == 1 then 2 else if id == 2 then 4 else 8
  }

  lemma BitIs(id: nat)
    requires id < PER_PRIO
    ensures Bit(id) == (1 as bv8) << id
  {
  }

  predicate IsSet(m: bv8, id: nat)
    requires id < PER_PRIO
  {
    m & Bit(id) != 0
  }

  lemma SetBit(m: bv8, id: nat, j: nat)
    requires id < PER_PRIO && j < PER_PRIO
    ensures IsSet(m | Bit(id), j) <==> j == id || IsSet(m, j)
  {
    BitsDiffer(m, Bit(id), Bit(j));
  }

  lemma ClearBit(m: bv8, id: nat, j: nat)
    requires id < PER_PRIO && j < PER_PRIO
    ensures IsSet(m & !Bit(id), j) <==> j != id && IsSet(m, j)
  {
    BitsDiffer(m, Bit(id), Bit(j));
  }

  lemma BitsDiffer(m: bv8, a: bv8, b: bv8)
    ensures a == b && a != 0 ==> (m | a) & b != 0
    ensures a & b == 0 ==> (m | a) & b == m & b && (m & !a) & b == m & b
    ensures (m & !a) & a == 0
  {
  }

  /** The index of the priority queue of queue number q. */
  function PriIndex(qu: Queue, q: nat): nat
  {
    qu.prio * PER_PRIO + q % PER_PRIO
  }

  // ---------------------------------------------------------------- steps

  datatype Action =
    | Create(q: nat, atomic: bool, prio: nat)
    | InitCommand
    | Enqueue(q: nat, n: nat)
    | Push
    | Take(x: nat)
    | NotEligible
    | Dequeue(max: nat)
    | Deliver(n: nat)
    | Release
    | Finalize
    | Destroy(q: nat)

  predicate Enabled(s: State, t: nat, a: Action)
    requires t < |s.threads|
  {
    var th := s.threads[t];
    match a
    case Create(q, _, prio) =>
      th.pc.Ready? && q < |s.queues| && s.queues[q].status.Free? && prio < PRIOS
    case InitCommand => th.pc.Creating? && th.pc.q < |s.queues| && WellFormed(s)
    case Enqueue(q, n) => th.pc.Ready? && q < |s.queues| && n >= 1
    case Push => th.pc.Pushing? && th.pc.q < |s.queues| && WellFormed(s)
    case Take(x) =>
      th.pc.Ready? && th.stash == [] && th.held.None? && x < |s.pri| && s.pri[x] != [] && s.pri[x][0] < |s.queues|
    case NotEligible => th.pc.Hand?
    case Dequeue(max) => th.pc.Hand? && th.pc.q < |s.queues| && max >= 1
    case Deliver(n) =>
      (th.pc.Ready? || th.pc.Pushing?) && 1 <= n <= |th.stash| && th.from < |s.queues|
    case Release =>
      th.pc.Ready? && th.held.Some? && th.stash == [] && th.held.value < |s.queues| && WellFormed(s)
    case Finalize => th.pc.Finalizing? && th.pc.q < |s.queues| && WellFormed(s)
    case Destroy(q) => th.pc.Ready? && q < |s.queues| && WellFormed(s)
  }

  /**
   The step does not use a queue whose creation has not returned.  odp_queue_lookup finds a
   queue from the moment its status is set, before its command has been made.
   */
  predicate Patient(s: State, a: Action)
  {
    (a.Enqueue? || a.Destroy?) && a.q < |s.queues| && s.queues[a.q].status.NotSched? ==> s.queues[a.q].cmd
  }

  predicate Allowed(s: State, t: nat, a: Action)
    requires t < |s.threads|
  {
    Enabled(s, t, a) && Patient(s, a)
  }

  /** The tables have their fixed sizes and every queue a valid priority. */
  predicate WellFormed(s: State)
  {
    && |s.pri| == |s.count| == PRIOS * PER_PRIO && |s.mask| == PRIOS
    && forall q :: 0 <= q < |s.queues| ==> s.queues[q].prio < PRIOS
  }

  /** Put queue q's command at the end of its priority queue. */
  function Pushed(s: State, q: nat): (r: State)
    requires WellFormed(s) && q < |s.queues|
  {
    var x := PriIndex(s.queues[q], q);
    s.(pri := s.pri[x := s.pri[x] + [q]], queues := s.queues[q := s.queues[q].(place := InPri)])
  }

  /** pri_set and the allocation of the command. */
  function WithCommand(s: State, q: nat): State
    requires WellFormed(s) && q < |s.queues|
  {
    var qu := s.queues[q];
    var x := PriIndex(qu, q);
    s.(queues := s.queues[q := qu.(cmd := true, place := Nowhere)],
       mask := s.mask[qu.prio := s.mask[qu.prio] | Bit(q % PER_PRIO)],
       count := s.count[x := s.count[x] + 1])
  }

  /** schedule_queue_destroy: free the command, pri_clr. */
  function WithoutCommand(s: State, q: nat): State
    requires WellFormed(s) && q < |s.queues|
  {
    var qu := s.queues[q];
    var x := PriIndex(qu, q);
    var left := s.count[x] - 1;
    s.(queues := s.queues[q := qu.(status := Free, cmd := false, place := Nowhere)],
       mask := if left == 0 then s.mask[qu.prio := s.mask[qu.prio] & !Bit(q % PER_PRIO)] else s.mask,
       count := s.count[x := left])
  }

  function WithThread(s: State, t: nat, th: Thread): State
    requires t < |s.threads|
  {
    s.(threads := s.threads[t := th])
  }

  function Range(from: nat, n: nat): (r: seq<nat>)
    ensures |r| == n && forall i :: 0 <= i < n ==> r[i] == from + i
  {
    seq(n, i => from + i)
  }

  function Repeat<A>(a: A, n: nat): (r: seq<A>)
    ensures |r| == n && forall i :: 0 <= i < n ==> r[i] == a
  {
    seq(n, i => a)
  }

  /** The event table after the events of `es` have moved to `p`. */
  function Moved(events: seq<EventPlace>, es: seq<nat>, p: EventPlace): (r: seq<EventPlace>)
    ensures |r| == |events|
    ensures forall e :: 0 <= e < |r| ==> r[e] == if e in es then p else events[e]
  {
    seq(|events|, e requires 0 <= e < |events| => if e in es then p else events[e])
  }

  function Apply(s: State, t: nat, a: Action): State
    requires t < |s.threads| && Enabled(s, t, a)
  {
    var th := s.threads[t];
    match a
    case Create(q, atomic, prio) =>
      WithThread(s.(queues := s.queues[q := Queue(NotSched, atomic, prio, [], false, Building(t), [], [])]),
                 t, th.(pc := Creating(q)))
    case InitCommand =>
      WithThread(WithCommand(s, th.pc.q), t, th.(pc := Ready))
    case Enqueue(q, n) =>
      var qu := s.queues[q];
      if qu.status.Free? || qu.status.Destroyed? then s
      else
        var es := Range(|s.events|, n);
        var s1 := s.(events := s.events + Repeat(InList(q), n));
        if qu.status.NotSched? then
          WithThread(s1.(queues := s.queues[q := qu.(list := qu.list + es, came := qu.came + es,
                                                     status := Sched, place := AtThread(t))]),
                     t, th.(pc := Pushing(q)))
        else
          s1.(queues := s.queues[q := qu.(list := qu.list + es, came := qu.came + es)])
    case Push =>
      WithThread(Pushed(s, th.pc.q), t, th.(pc := Ready))
    case Take(x) =>
      var q := s.pri[x][0];
      WithThread(s.(pri := s.pri[x := s.pri[x][1..]],
                    queues := s.queues[q := s.queues[q].(place := AtThread(t))]),
                 t, th.(pc := Hand(q)))
    case NotEligible =>
      WithThread(s, t, th.(pc := Pushing(th.pc.q)))
    case Dequeue(max) =>
      var q := th.pc.q;
      var qu := s.queues[q];
      if qu.status.Free? || qu.status.Destroyed? then
        WithThread(s, t, th.(pc := Finalizing(q)))
      else if qu.list == [] then
        WithThread(s.(queues := s.queues[q := if qu.status.Sched? then qu.(status := NotSched, place := Nowhere)
                                         else qu]),
                   t, th.(pc := Ready))
      else
        var n := if max < |qu.list| then max else |qu.list|;
        var es := qu.list[..n];
        var s1 := s.(queues := s.queues[q := qu.(list := qu.list[n..],
                                                 place := if qu.atomic then HeldBy(t) else AtThread(t))],
                     events := Moved(s.events, es, InStash(t)));
        WithThread(s1, t, Thread(es, q, if qu.atomic then Some(q) else th.held,
                                 if qu.atomic then Ready else Pushing(q)))
    case Deliver(n) =>
      var q := th.from;
      var es := th.stash[..n];
      var qu := s.queues[q];
      WithThread(s.(events := Moved(s.events, es, Delivered),
                    queues := if th.held == Some(q) then s.queues[q := qu.(went := qu.went + es)] else s.queues),
                 t, th.(stash := th.stash[n..]))
    case Release =>
      WithThread(Pushed(s, th.held.value), t, th.(held := None))
    case Finalize =>
      var q := th.pc.q;
      WithThread(if s.queues[q].status.Destroyed? then WithoutCommand(s, q) else s, t, th.(pc := Ready))
    case Destroy(q) =>
      var qu := s.queues[q];
      if qu.status.Free? || qu.status.Destroyed? || qu.list != [] then s
      else if qu.status.Plain? then s.(queues := s.queues[q := qu.(status := Free)])
      else if qu.status.NotSched? then WithoutCommand(s, q)
      else s.(queues := s.queues[q := qu.(status := Destroyed)])
  }

  ghost predicate Init(s: State)
  {
    && WellFormed(s) && s.events == []
    && (forall q :: 0 <= q < |s.queues| ==>
          s.queues[q].status.Free? && s.queues[q].list == [] && !s.queues[q].cmd && s.queues[q].place.Nowhere? &&
          s.queues[q].came == [] && s.queues[q].went == [])
    && (forall x :: 0 <= x < |s.pri| ==> s.pri[x] == [] && s.count[x] == 0)
    && (forall p :: 0 <= p < |s.mask| ==> s.mask[p] == 0)
    && (forall t :: 0 <= t < |s.threads| ==> s.threads[t] == Thread([], 0, None, Ready))
  }

  /** `early`: whether queues may be used before their creation has returned. */
  ghost predicate Next(early: bool, s: State, s': State)
  {
    exists t: nat, a :: t < |s.threads| && Enabled(s, t, a) && (early || Patient(s, a)) && s' == Apply(s, t, a)
  }

  ghost predicate IsRun(early: bool, run: seq<State>)
  {
    && |run| > 0 && Init(run[0])
    && forall i :: 0 <= i < |run| - 1 ==> Next(early, run[i], run[i + 1])
  }
}
