/**
 What each call of the ring gets, against what its caller asked for: the request is kept as
 history from the step that begins the call, and the room from the step that loads the
 opposite tail, so that neither depends on what the protocol carries along.
 */
module RingCalls {
  import opened Sequences
  import opened Words
  import opened RingProtocol
  import opened RingTheorems

  /** The request of a call, and the room there was when it looked. */
  datatype Call<T> = Call(role: Role, max: nat, fixed: bool, table: seq<T>, room: int) {
    /** All or nothing for a fixed request, else as much as there is. */
    function Share(): int { if fixed || max <= room then max else room }
  }

  /** `calls`: the last call each thread has begun. */
  datatype Traced<T> = Traced(sys: State<T>, calls: seq<Call<T>>)

  function Noted<T>(c: Config, s: State<T>, call: Call<T>, a: Action<T>): Call<T>
  {
    match a
    case Begin(role, max, fixed, table) => Call(role, max, fixed, table, 0)
    case LoadOpposite =>
      if call.role.Producer? then call.(room := s.cons.tl + c.Mask() - s.prod.hd)
      else call.(room := s.prod.tl - s.cons.hd)
    case _ => call
  }

  ghost predicate TracedNext<T(!new)>(c: Config, gap: nat, x: Traced<T>, x': Traced<T>)
    requires c.k <= 32
  {
    exists t: nat, a :: t < |x.sys.procs| && t < |x.calls| && Enabled(c, x.sys, t, a) && Timely(c, gap, x.sys, t, a)
      && x' == Traced(Apply(c, x.sys, t, a), x.calls[t := Noted(c, x.sys, x.calls[t], a)])
  }

  ghost predicate IsTrace<T(!new)>(c: Config, gap: nat, run: seq<Traced<T>>)
    requires c.k <= 32
  {
    && |run| > 0 && Init(c, run[0].sys) && |run[0].calls| == |run[0].sys.procs|
    && forall i :: 0 <= i < |run| - 1 ==> TracedNext(c, gap, run[i], run[i + 1])
  }

  /** A thread works on its call, and what it has reserved is its share, filled from the front of its table. */
  ghost predicate CallOk<T>(p: Proc<T>, call: Call<T>)
  {
    match p
    case Idle => true
    case Begun(role, max, fixed, table) => (role, max, fixed, table) == (call.role, call.max, call.fixed, call.table)
    case HeadRead(role, max, fixed, table, _, _) =>
      (role, max, fixed, table) == (call.role, call.max, call.fixed, call.table)
    case TailRead(role, max, fixed, table, _, _, _, _, room) =>
      (role, max, fixed, table, room) == (call.role, call.max, call.fixed, call.table, call.room)
    case Copying(role, n, table, _, _, _) => role == call.role && Granting(call, n, table)
    case Publishing(role, n, table, _, _) => role == call.role && Granting(call, n, table)
  }

  ghost predicate Granting<T>(call: Call<T>, n: nat, table: seq<T>)
  {
    && n == call.Share() <= call.room
    && (call.role.Producer? ==> n <= |call.table| && table == call.table[..n])
  }

  ghost predicate TracedInv<T>(c: Config, x: Traced<T>)
  {
    && (if c.k == 0 then Still(x.sys) else Inv(c, x.sys)) && |x.calls| == |x.sys.procs|
    && forall t :: 0 <= t < |x.calls| ==> CallOk(x.sys.procs[t], x.calls[t])
  }

  /** The swap takes exactly the share. */
  lemma ReserveShare<T>(c: Config, s: State<T>, t: nat, call: Call<T>)
    requires c.Valid() && (if c.k == 0 then Still(s) else Inv(c, s)) && t < |s.procs| && Enabled(c, s, t, Reserve)
    requires c.k == 0 || Timely(c, U32 - 1, s, t, Reserve)
    requires CallOk(s.procs[t], call)
    ensures CallOk(Apply(c, s, t, Reserve).procs[t], call)
  {
    var p := s.procs[t];
    if c.k == 0 {
      assert IdleHands(p);
      assert Available(c, p) == 0;
    } else {
      assert ProcOk(c, s, t, p);
      ReservationExact(c, s, t);
    }
  }

  lemma OtherShare<T>(c: Config, s: State<T>, t: nat, a: Action<T>, call: Call<T>)
    requires c.k <= 32 && t < |s.procs| && Enabled(c, s, t, a) && !a.Reserve? && CallOk(s.procs[t], call)
    ensures CallOk(Apply(c, s, t, a).procs[t], Noted(c, s, call, a))
  {
  }

  lemma TracedStep<T(!new)>(c: Config, gap: nat, x: Traced<T>, x': Traced<T>)
    requires c.Valid() && Safe(c, gap) && TracedInv(c, x) && TracedNext(c, gap, x, x')
    ensures TracedInv(c, x')
  {
    var t: nat, a :| t < |x.sys.procs| && t < |x.calls| && Enabled(c, x.sys, t, a) && Timely(c, gap, x.sys, t, a)
      && x' == Traced(Apply(c, x.sys, t, a), x.calls[t := Noted(c, x.sys, x.calls[t], a)]);
    SystemStep(c, gap, x.sys, t, a);
    assert CallOk(x.sys.procs[t], x.calls[t]);
    OwnShare(c, gap, x.sys, t, a, x.calls[t]);
    OthersKept(c, x.sys, t, a);
    Concluded(c, x, t, x'.sys, Noted(c, x.sys, x.calls[t], a));
  }

  lemma Concluded<T>(c: Config, x: Traced<T>, t: nat, s': State<T>, call: Call<T>)
    requires TracedInv(c, x) && t < |x.calls| && (if c.k == 0 then Still(s') else Inv(c, s'))
    requires |s'.procs| == |x.sys.procs| && CallOk(s'.procs[t], call)
    requires forall u :: 0 <= u < |s'.procs| && u != t ==> s'.procs[u] == x.sys.procs[u]
    ensures TracedInv(c, Traced(s', x.calls[t := call]))
  {
  }

  lemma SystemStep<T(!new)>(c: Config, gap: nat, s: State<T>, t: nat, a: Action<T>)
    requires c.Valid() && Safe(c, gap) && (if c.k == 0 then Still(s) else Inv(c, s)) && t < |s.procs|
    requires Enabled(c, s, t, a) && Timely(c, gap, s, t, a)
    ensures if c.k == 0 then Still(Apply(c, s, t, a)) else Inv(c, Apply(c, s, t, a))
  {
    assert Next(c, gap, s, Apply(c, s, t, a));
    if c.k == 0 {
      StillStep(c, gap, s, Apply(c, s, t, a));
    } else {
      StepInv(c, gap, s, Apply(c, s, t, a));
    }
  }

  lemma OwnShare<T>(c: Config, gap: nat, s: State<T>, t: nat, a: Action<T>, call: Call<T>)
    requires c.Valid() && Safe(c, gap) && (if c.k == 0 then Still(s) else Inv(c, s)) && t < |s.procs|
    requires Enabled(c, s, t, a) && Timely(c, gap, s, t, a) && CallOk(s.procs[t], call)
    ensures t < |Apply(c, s, t, a).procs| && CallOk(Apply(c, s, t, a).procs[t], Noted(c, s, call, a))
  {
    if a.Reserve? {
      ReserveShare(c, s, t, call);
    } else {
      OtherShare(c, s, t, a, call);
    }
  }

  lemma OthersKept<T>(c: Config, s: State<T>, t: nat, a: Action<T>)
    requires c.k <= 32 && t < |s.procs| && Enabled(c, s, t, a)
    ensures |Apply(c, s, t, a).procs| == |s.procs|
    ensures forall u :: 0 <= u < |s.procs| && u != t ==> Apply(c, s, t, a).procs[u] == s.procs[u]
  {
  }

  lemma {:induction false} TraceInv<T(!new)>(c: Config, gap: nat, run: seq<Traced<T>>)
    requires c.Valid() && Safe(c, gap) && IsTrace(c, gap, run)
    ensures TracedInv(c, Last(run))
  {
    if |run| == 1 {
      InitInv(c, run[0].sys);
    } else {
      assert IsTrace(c, gap, run[..|run| - 1]);
      TraceInv(c, gap, run[..|run| - 1]);
      TracedStep(c, gap, run[|run| - 2], run[|run| - 1]);
    }
  }

  /**
   In every run of a ring used safely: what a call has reserved, until it is published, is all it
   asked for if it was fixed, and else the lesser of that and the room it found; there was that
   much room.  The objects of an enqueue are the first ones of the caller's table, in order, at
   the positions reserved, and the tail moves on by exactly their number.
   */
  lemma GrantExact<T(!new)>(c: Config, gap: nat, run: seq<Traced<T>>, t: nat)
    requires c.Valid() && Safe(c, gap) && IsTrace(c, gap, run)
    requires t < |Last(run).sys.procs| && (Last(run).sys.procs[t].Copying? || Last(run).sys.procs[t].Publishing?)
    ensures var s, p := Last(run).sys, Last(run).sys.procs[t];
            && t < |Last(run).calls|
            && var call := Last(run).calls[t];
               && p.role == call.role && p.n <= call.room
               && p.n == (if call.fixed then call.max else if call.max <= call.room then call.max else call.room)
               && (call.role.Producer? ==> p.n <= |call.table| && p.start + p.n <= |s.log|
                                           && s.log[p.start..p.start + p.n] == call.table[..p.n])
               && (p.Publishing? ==> s.Of(call.role).tl == p.start
                                     && Apply(c, s, t, Publish).Of(call.role).tl == p.start + p.n)
  {
    TraceInv(c, gap, run);
    var s, p := Last(run).sys, Last(run).sys.procs[t];
    assert CallOk(p, Last(run).calls[t]);
    if c.k == 0 {
      assert IdleHands(p);
    } else {
      assert ProcOk(c, s, t, p);
    }
  }

  /**
   A call about to be refused asked for more than there was when it looked, and for a number of
   its own choosing or where there was nothing, if the opposite tail was close.
   */
  lemma RefusalExact<T(!new)>(c: Config, gap: nat, run: seq<Traced<T>>, t: nat)
    requires c.Valid() && Safe(c, gap) && IsTrace(c, gap, run)
    requires t < |Last(run).sys.procs| && Enabled(c, Last(run).sys, t, Refuse)
    requires c.k == 0 || c.Single(Last(run).sys.procs[t].role) || Close(c, U32 - 1, Last(run).sys.procs[t])
    ensures t < |Last(run).calls|
    ensures var call := Last(run).calls[t]; 0 <= call.room < call.max && (call.fixed || call.room == 0)
  {
    TraceInv(c, gap, run);
    var s, p := Last(run).sys, Last(run).sys.procs[t];
    assert CallOk(p, Last(run).calls[t]);
    if c.k == 0 {
      assert IdleHands(p);
    } else {
      RefusalHonest(c, s, t);
    }
  }

  ghost predicate Traces<T>(trace: seq<Traced<T>>, run: seq<State<T>>)
  {
    |trace| == |run| && forall i :: 0 <= i < |run| ==> trace[i].sys == run[i]
  }

  /** The history takes nothing away: every run has a trace. */
  lemma {:induction false} EveryRunIsTraced<T(!new)>(c: Config, gap: nat, run: seq<State<T>>)
    returns (trace: seq<Traced<T>>)
    requires c.k <= 32 && IsRun(c, gap, run)
    ensures IsTrace(c, gap, trace) && Traces(trace, run) && |Last(trace).calls| == |Last(run).procs|
  {
    if |run| == 1 {
      var none: Call<T> := Call(Producer, 0, false, [], 0);
      trace := [Traced(run[0], seq(|run[0].procs|, i => none))];
    } else {
      var before := run[..|run| - 1];
      assert IsRun(c, gap, before);
      trace := EveryRunIsTraced(c, gap, before);
      var x, s := Last(trace), run[|run| - 2];
      assert x.sys == s && Next(c, gap, s, run[|run| - 1]);
      var t: nat, a :| t < |s.procs| && Enabled(c, s, t, a) && Timely(c, gap, s, t, a)
        && run[|run| - 1] == Apply(c, s, t, a);
      trace := Append(c, gap, trace, t, a);
    }
  }

  lemma Append<T(!new)>(c: Config, gap: nat, trace: seq<Traced<T>>, t: nat, a: Action<T>)
    returns (longer: seq<Traced<T>>)
    requires c.k <= 32 && IsTrace(c, gap, trace) && |Last(trace).calls| == |Last(trace).sys.procs|
    requires t < |Last(trace).sys.procs| && Enabled(c, Last(trace).sys, t, a) && Timely(c, gap, Last(trace).sys, t, a)
    ensures IsTrace(c, gap, longer) && longer == trace + [Last(longer)]
    ensures Last(longer).sys == Apply(c, Last(trace).sys, t, a) && |Last(longer).calls| == |Last(longer).sys.procs|
  {
    var x := Last(trace);
    var x' := Traced(Apply(c, x.sys, t, a), x.calls[t := Noted(c, x.sys, x.calls[t], a)]);
    OthersKept(c, x.sys, t, a);
    assert TracedNext(c, gap, x, x');
    longer := trace + [x'];
    forall i | 0 <= i < |longer| - 1
      ensures TracedNext(c, gap, longer[i], longer[i + 1])
    {
      if i < |trace| - 1 {
        assert longer[i] == trace[i] && longer[i + 1] == trace[i + 1];
      }
    }
  }
}
