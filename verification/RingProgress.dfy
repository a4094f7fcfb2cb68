/**
 The ring is never stuck: a thread in a call can always go on, or waits for an earlier one of its
 side; and a call that meets nobody does what it was asked for.
 */
module RingProgress {
  import opened Sequences
  import opened Words
  import opened RingProtocol
  import opened RingTheorems

  /** The step a thread in a call can take, unless it waits for reservations before its own. */
  lemma NeverStuck<T>(c: Config, s: State<T>, t: nat) returns (a: Action<T>)
    requires c.Valid() && Inv(c, s) && t < |s.procs| && !s.procs[t].Idle?
    ensures Enabled(c, s, t, a) || (s.procs[t].Copying? && s.Of(s.procs[t].role).tl < s.procs[t].start)
  {
    var p := s.procs[t];
    assert ProcOk(c, s, t, p);
    match p
    case Begun(_, _, _, _) => a := LoadHead;
    case HeadRead(_, _, _, _, _, _) => a := LoadOpposite;
    case TailRead(_, _, _, _, _, _, _, _, _) =>
      a := if Refused(c, p) then Refuse else if c.Single(p.role) || s.Of(p.role).head == p.head then Reserve else Retry;
    case Copying(_, _, _, _, _, _) => a := if p.done < p.n then Copy else SeeTail;
    case Publishing(_, _, _, _, _) => a := Publish;
  }

  ghost predicate SoloStep<T(!new)>(c: Config, s: State<T>, t: nat, s': State<T>)
    requires c.k <= 32
  {
    t < |s.procs| && exists a :: Enabled(c, s, t, a) && Timely(c, 0, s, t, a) && s' == Apply(c, s, t, a)
  }

  /** Thread t goes on alone. */
  ghost predicate Solo<T(!new)>(c: Config, path: seq<State<T>>, t: nat)
    requires c.k <= 32
  {
    |path| > 0 && forall i :: 0 <= i < |path| - 1 ==> SoloStep(c, path[i], t, path[i + 1])
  }

  lemma Extend<T(!new)>(c: Config, path: seq<State<T>>, t: nat, a: Action<T>) returns (longer: seq<State<T>>)
    requires c.k <= 32 && Solo(c, path, t) && t < |Last(path).procs|
    requires Enabled(c, Last(path), t, a) && Timely(c, 0, Last(path), t, a)
    ensures Solo(c, longer, t) && longer[0] == path[0] && Last(longer) == Apply(c, Last(path), t, a)
  {
    var s := Last(path);
    assert SoloStep(c, s, t, Apply(c, s, t, a));
    longer := path + [Apply(c, s, t, a)];
    forall i | 0 <= i < |longer| - 1
      ensures SoloStep(c, longer[i], t, longer[i + 1])
    {
      if i < |path| - 1 {
        assert longer[i] == path[i] && longer[i + 1] == path[i + 1];
      }
    }
  }

  lemma KeepsInv<T(!new)>(c: Config, s: State<T>, t: nat, a: Action<T>)
    requires c.Valid() && Careful(c, 0) && Inv(c, s) && t < |s.procs| && Enabled(c, s, t, a) && Timely(c, 0, s, t, a)
    ensures Inv(c, Apply(c, s, t, a))
  {
    assert Next(c, 0, s, Apply(c, s, t, a));
    StepInv(c, 0, s, Apply(c, s, t, a));
  }

  /** A call begins and loads both counters. */
  lemma Enter<T(!new)>(c: Config, s: State<T>, t: nat, a: Action<T>) returns (path: seq<State<T>>)
    requires c.Valid() && Careful(c, 0) && Inv(c, s) && t < |s.procs| && a.Begin? && Enabled(c, s, t, a)
    ensures Solo(c, path, t) && path[0] == s && Inv(c, Last(path))
    ensures var d, o := s.Of(a.role), s.Opp(a.role);
            Last(path) == s.(procs := s.procs[t := TailRead(a.role, a.max, a.fixed, a.table, d.head, d.hd, o.tail, o.tl,
                                                            c.Lead(a.role) + o.tl - d.hd)])
  {
    path := [s];
    KeepsInv(c, Last(path), t, a);
    path := Extend(c, path, t, a);
    KeepsInv(c, Last(path), t, LoadHead);
    path := Extend(c, path, t, LoadHead);
    KeepsInv(c, Last(path), t, LoadOpposite);
    path := Extend(c, path, t, LoadOpposite);
  }

  /** The objects still to be copied are copied. */
  lemma {:induction false} CopyAll<T(!new)>(c: Config, path: seq<State<T>>, t: nat) returns (longer: seq<State<T>>)
    requires c.Valid() && Careful(c, 0) && Solo(c, path, t) && Inv(c, Last(path))
    requires t < |Last(path).procs| && Last(path).procs[t].Copying?
    ensures Solo(c, longer, t) && longer[0] == path[0] && Inv(c, Last(longer)) && SameSides(Last(path), Last(longer))
    ensures t < |Last(longer).procs| && Last(longer).procs[t].Copying?
    ensures SamePlace(Last(path).procs[t], Last(longer).procs[t])
    ensures Last(longer).procs[t].done == Last(longer).procs[t].n
    decreases Last(path).procs[t].n - Last(path).procs[t].done
  {
    var s := Last(path);
    assert ProcOk(c, s, t, s.procs[t]);
    if s.procs[t].done == s.procs[t].n {
      longer := path;
    } else {
      KeepsInv(c, s, t, Copy);
      longer := Extend(c, path, t, Copy);
      longer := CopyAll(c, longer, t);
    }
  }

  ghost predicate SameSides<T>(s: State<T>, s': State<T>)
  {
    s'.prod == s.prod && s'.cons == s.cons && s'.log == s.log
  }

  ghost predicate SamePlace<T>(p: Proc<T>, q: Proc<T>)
    requires p.Copying? && q.Copying?
  {
    q.role == p.role && q.n == p.n && q.head == p.head && q.start == p.start
  }

  /** The call of a thread that has loaded both counters is over, with n objects moved. */
  ghost predicate Done<T>(s: State<T>, s': State<T>, t: nat, r: Role, table: seq<T>, n: int)
  {
    && t < |s'.procs| && s'.procs[t].Idle? && s'.Opp(r) == s.Opp(r)
    && s'.Of(r).tl == s'.Of(r).hd == s.Of(r).tl + n
    && (r.Producer? ==> 0 <= n <= |table| && s'.log == s.log + table[..n])
    && (r.Consumer? ==> s'.log == s.log)
  }

  /** An unrefused swap on a quiet side reserves as much as there is room for. */
  lemma Swap<T(!new)>(c: Config, path: seq<State<T>>, t: nat) returns (longer: seq<State<T>>)
    requires c.Valid() && Careful(c, 0) && Solo(c, path, t) && Inv(c, Last(path)) && t < |Last(path).procs|
    requires Last(path).procs[t].TailRead? && !Refused(c, Last(path).procs[t])
    requires var s, p := Last(path), Last(path).procs[t]; p.hpos == s.Of(p.role).hd
    ensures Solo(c, longer, t) && longer[0] == path[0] && Inv(c, Last(longer))
    ensures var s, p := Last(path), Last(path).procs[t];
            var n := if p.max <= p.room then p.max else p.room;
            n >= 0 && CanReserve(c, s, t, n) && Last(longer) == AfterReserve(c, s, t, n)
  {
    var s, p := Last(path), Last(path).procs[t];
    assert ProcOk(c, s, t, p);
    ReservationExact(c, s, t);
    ReserveEffect(c, s, t);
    KeepsInv(c, s, t, Reserve);
    longer := Extend(c, path, t, Reserve);
  }

  /** What is reserved on a quiet side is copied and published. */
  lemma Publishes<T(!new)>(c: Config, path: seq<State<T>>, t: nat) returns (longer: seq<State<T>>)
    requires c.Valid() && Careful(c, 0) && Solo(c, path, t) && Inv(c, Last(path)) && t < |Last(path).procs|
    requires Last(path).procs[t].Copying?
    requires var s, p := Last(path), Last(path).procs[t]; p.start == s.Of(p.role).tl && p.start + p.n == s.Of(p.role).hd
    ensures Solo(c, longer, t) && longer[0] == path[0] && Inv(c, Last(longer))
    ensures var s, s', p := Last(path), Last(longer), Last(path).procs[t];
            && t < |s'.procs| && s'.procs[t].Idle? && s'.Opp(p.role) == s.Opp(p.role) && s'.log == s.log
            && s'.Of(p.role).tl == s'.Of(p.role).hd == s.Of(p.role).hd
  {
    longer := CopyAll(c, path, t);
    var s := Last(longer);
    assert ProcOk(c, s, t, s.procs[t]);
    KeepsInv(c, s, t, SeeTail);
    longer := Extend(c, longer, t, SeeTail);
    KeepsInv(c, Last(longer), t, Publish);
    longer := Extend(c, longer, t, Publish);
  }

  /** With both counters loaded, an unrefused call on a quiet side runs to its end. */
  lemma Finish<T(!new)>(c: Config, path: seq<State<T>>, t: nat) returns (longer: seq<State<T>>)
    requires c.Valid() && Careful(c, 0) && Solo(c, path, t) && Inv(c, Last(path)) && t < |Last(path).procs|
    requires Last(path).procs[t].TailRead? && !Refused(c, Last(path).procs[t])
    requires var s, p := Last(path), Last(path).procs[t]; p.hpos == s.Of(p.role).hd == s.Of(p.role).tl
    ensures Solo(c, longer, t) && longer[0] == path[0] && Inv(c, Last(longer))
    ensures var s, p := Last(path), Last(path).procs[t];
            Done(s, Last(longer), t, p.role, p.table, if p.max <= p.room then p.max else p.room)
  {
    longer := Swap(c, path, t);
    longer := Publishes(c, longer, t);
  }

  /** What a request gets from the room there is. */
  function Moves(max: nat, fixed: bool, room: int): int
  {
    if max <= room then max else if fixed then 0 else room
  }

  /** A call that has loaded both counters is refused, or goes to its end. */
  lemma Decide<T(!new)>(c: Config, path: seq<State<T>>, t: nat) returns (longer: seq<State<T>>)
    requires c.Valid() && Careful(c, 0) && Solo(c, path, t) && Inv(c, Last(path)) && t < |Last(path).procs|
    requires Last(path).procs[t].TailRead?
    requires var s, p := Last(path), Last(path).procs[t]; p.hpos == s.Of(p.role).hd == s.Of(p.role).tl
    ensures Solo(c, longer, t) && longer[0] == path[0] && Inv(c, Last(longer))
    ensures var s, p := Last(path), Last(path).procs[t];
            Done(s, Last(longer), t, p.role, p.table, Moves(p.max, p.fixed, p.room))
  {
    var s, p := Last(path), Last(path).procs[t];
    RoomSeen(c, s, t);
    if Refused(c, p) {
      KeepsInv(c, s, t, Refuse);
      longer := Extend(c, path, t, Refuse);
      assert p.table[..0] == [] && s.log + [] == s.log;
    } else {
      longer := Finish(c, path, t);
    }
  }

  /** With the head still current, the difference is the room. */
  lemma RoomSeen<T>(c: Config, s: State<T>, t: nat)
    requires c.Valid() && Inv(c, s) && t < |s.procs| && s.procs[t].TailRead?
    requires s.procs[t].hpos == s.Of(s.procs[t].role).hd
    ensures Available(c, s.procs[t]) == s.procs[t].room
  {
    var p := s.procs[t];
    assert ProcOk(c, s, t, p);
    MaskBound(c);
    ExactDifference(c.Lead(p.role), p.opos, p.hpos);
  }

  /**
   From every reachable state, a call on a side without reservations in progress, going on alone,
   comes to its end: all objects asked for are moved if there is room, else none for a fixed request
   and as many as there is room for otherwise.  An enqueue appends the first objects of its table; by
   the invariant, what dequeues have returned is then the first part of the log up to the new tail.
   */
  lemma SoloCall<T(!new)>(c: Config, s: State<T>, t: nat, a: Action<T>) returns (path: seq<State<T>>)
    requires c.Valid() && Careful(c, 0) && Inv(c, s) && t < |s.procs| && a.Begin? && Enabled(c, s, t, a)
    requires s.Of(a.role).tl == s.Of(a.role).hd
    ensures Solo(c, path, t) && path[0] == s && Inv(c, Last(path))
    ensures var room := c.Lead(a.role) + s.Opp(a.role).tl - s.Of(a.role).hd;
            Done(s, Last(path), t, a.role, a.table, Moves(a.max, a.fixed, room))
  {
    path := Enter(c, s, t, a);
    path := Decide(c, path, t);
  }

  /** An idle thread may begin any call, on a side with one user if that is free. */
  lemma AnyRequest<T>(c: Config, s: State<T>, t: nat, r: Role, fixed: bool, table: seq<T>, max: nat)
    requires t < |s.procs| && s.procs[t].Idle? && (max >= 1 || c.empty)
    requires if r.Producer? then |table| == max else table == []
    requires !c.Single(r) || forall u :: 0 <= u < |s.procs| ==> s.procs[u].Idle? || s.procs[u].role != r
    ensures Enabled(c, s, t, Begin(r, max, fixed, table))
    ensures c.k <= 32 ==> Apply(c, s, t, Begin(r, max, fixed, table)).procs[t] == Begun(r, max, fixed, table)
  {
  }

  /** A call tries again only if another call of its side has reserved since it loaded the head. */
  lemma RetryMeansProgress<T>(c: Config, s: State<T>, t: nat)
    requires c.Valid() && Inv(c, s) && t < |s.procs| && Enabled(c, s, t, Retry)
    ensures s.procs[t].hpos < s.Of(s.procs[t].role).hd && !Refused(c, s.procs[t])
  {
    assert ProcOk(c, s, t, s.procs[t]);
  }
}
