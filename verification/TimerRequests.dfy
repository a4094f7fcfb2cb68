/**
 What a timer pool does for its users, against what they asked for: the queue of each timer is
 kept as history from the step that allocates it, tick and buffer from the steps that set it,
 so that no entry of the pool vouches for itself.
 */
module TimerRequests {
  import opened Sequences
  import opened Options
  import opened Timer
  import opened TimerRuns

  /** Where the timeouts of a timer go, when the next one is due, and in which buffer. */
  datatype Request = Request(queue: nat, when: Option<nat>, buf: Option<nat>)

  /** `asked`: the requests of the timers in use. */
  datatype Traced = Traced(sys: System, asked: map<nat, Request>)

  /** A tick within the limits of the pool, with a buffer, new or already there. */
  predicate Acceptable(c: Config, cur: nat, r: Request, abs: nat, tmo: Option<nat>)
  {
    cur + c.minRel <= abs <= cur + c.maxRel && (tmo.Some? || r.when.Some?)
  }

  function SetFor(c: Config, cur: nat, r: Request, abs: nat, tmo: Option<nat>): Request
  {
    if Acceptable(c, cur, r, abs, tmo) then Request(r.queue, Some(abs), if tmo.Some? then tmo else r.buf) else r
  }

  function Unset(r: Request): Request { Request(r.queue, None, None) }

  function Noted(c: Config, x: Traced, a: Action): map<nat, Request>
    requires Enabled(c, x.sys, a)
  {
    var cur := x.sys.pool.cur;
    match a
    case AllocTimer(queue) =>
      var idx := Alloc(c, x.sys.pool, queue).1;
      if idx.Some? then x.asked[idx.value := Request(queue, None, None)] else x.asked
    case FreeTimer(idx) => x.asked - {idx}
    case SetAbsolute(idx, abs, tmo) =>
      if idx in x.asked then x.asked[idx := SetFor(c, cur, x.asked[idx], abs, tmo)] else x.asked
    case SetRelative(idx, rel, tmo) =>
      if idx in x.asked then x.asked[idx := SetFor(c, cur, x.asked[idx], cur + rel, tmo)] else x.asked
    case CancelTimer(idx) => if idx in x.asked then x.asked[idx := Unset(x.asked[idx])] else x.asked
    case Tick => map i | i in x.asked :: if x.asked[i].when == Some(cur) then Unset(x.asked[i]) else x.asked[i]
    case Receive(_) => x.asked
  }

  ghost predicate TracedNext(c: Config, x: Traced, x': Traced)
  {
    exists a :: Enabled(c, x.sys, a) && x' == Traced(Apply(c, x.sys, a), Noted(c, x, a))
  }

  ghost predicate IsTrace(c: Config, all: set<nat>, run: seq<Traced>)
  {
    && |run| > 0 && Init(c, all, run[0].sys) && run[0].asked == map[]
    && forall i :: 0 <= i < |run| - 1 ==> TracedNext(c, run[i], run[i + 1])
  }

  // ---------------------------------------------------------------- the invariant

  ghost predicate RequestOk(c: Config, p: Pool, i: nat, r: Request)
  {
    && p.Sized(c) && i < c.num && p.links[i] == r.queue && p.bufs[i] == r.buf
    && (r.when.Some? <==> r.buf.Some?)
    && (r.when.Some? ==> p.ticks[i] == r.when.value)
  }

  ghost predicate TracedInv(c: Config, all: set<nat>, x: Traced)
  {
    && Inv(c, all, x.sys) && x.asked.Keys == x.sys.live
    && forall i :: i in x.asked ==> RequestOk(c, x.sys.pool, i, x.asked[i])
  }

  /** The results of a set: refused below and above the limits, then for want of a buffer. */
  ghost predicate Answer(c: Config, cur: nat, r: Request, abs: nat, tmo: Option<nat>, back: Option<nat>, res: SetResult)
  {
    && (res.TooEarly? <==> abs < cur + c.minRel)
    && (res.TooLate? <==> abs >= cur + c.minRel && abs > cur + c.maxRel)
    && (res.NoEvent? <==> cur + c.minRel <= abs <= cur + c.maxRel && tmo.None? && r.when.None?)
    && (res.Success? <==> Acceptable(c, cur, r, abs, tmo))
    && back == if res.Success? then (if tmo.Some? then r.buf else None) else tmo
  }

  lemma SetAbsAsked(c: Config, all: set<nat>, x: Traced, idx: nat, abs: nat, tmo: Option<nat>)
    requires c.Valid() && TracedInv(c, all, x) && idx in x.asked && idx < c.num
    ensures var (p, back, res) := SetAbs(c, x.sys.pool, idx, abs, tmo);
            && Answer(c, x.sys.pool.cur, x.asked[idx], abs, tmo, back, res)
            && RequestOk(c, p, idx, SetFor(c, x.sys.pool.cur, x.asked[idx], abs, tmo))
            && Elsewhere(c, x.sys.pool, p, idx)
  {
    assert RequestOk(c, x.sys.pool, idx, x.asked[idx]);
  }

  lemma SetRelAsked(c: Config, all: set<nat>, x: Traced, idx: nat, rel: nat, tmo: Option<nat>)
    requires c.Valid() && TracedInv(c, all, x) && idx in x.asked && idx < c.num
    ensures var (p, back, res) := SetRel(c, x.sys.pool, idx, rel, tmo);
            && Answer(c, x.sys.pool.cur, x.asked[idx], x.sys.pool.cur + rel, tmo, back, res)
            && RequestOk(c, p, idx, SetFor(c, x.sys.pool.cur, x.asked[idx], x.sys.pool.cur + rel, tmo))
            && Elsewhere(c, x.sys.pool, p, idx)
  {
    assert RequestOk(c, x.sys.pool, idx, x.asked[idx]);
  }

  /** The entries of all other timers are as they were. */
  ghost predicate Elsewhere(c: Config, p: Pool, p': Pool, idx: nat)
  {
    && p.Sized(c) && p'.Sized(c)
    && forall i :: 0 <= i < c.num && i != idx ==>
         p'.links[i] == p.links[i] && p'.bufs[i] == p.bufs[i] && p'.ticks[i] == p.ticks[i]
  }

  lemma TickAsked(c: Config, all: set<nat>, x: Traced, i: nat)
    requires c.Valid() && TracedInv(c, all, x) && Enabled(c, x.sys, Tick) && i in x.asked
    ensures RequestOk(c, Apply(c, x.sys, Tick).pool, i, Noted(c, x, Tick)[i])
  {
    var p := x.sys.pool;
    assert RequestOk(c, p, i, x.asked[i]);
    TickDisarms(c, x.sys);
    if p.bufs[i].Some? {
      ScanBoundCovers(c, all, x.sys, i);
    }
    DisarmedAsked(c, p, Apply(c, x.sys, Tick).pool, i, x.asked[i]);
  }

  lemma DisarmedAsked(c: Config, p: Pool, p': Pool, i: nat, r: Request)
    requires RequestOk(c, p, i, r) && (p.bufs[i].Some? ==> i < p.highWm && p.cur <= p.ticks[i])
    requires Disarmed(c, Ticked(p), p.cur, p.highWm, p')
    ensures RequestOk(c, p', i, if r.when == Some(p.cur) then Unset(r) else r)
  {
  }

  /** What happens at one entry does not concern the request of another. */
  lemma Apart(c: Config, p: Pool, p': Pool, idx: nat, i: nat, r: Request)
    requires RequestOk(c, p, i, r) && Elsewhere(c, p, p', idx) && i != idx
    ensures RequestOk(c, p', i, r)
  {
  }

  lemma AllocAsked(c: Config, all: set<nat>, x: Traced, queue: nat, i: nat)
    requires c.Valid() && TracedInv(c, all, x) && Enabled(c, x.sys, AllocTimer(queue))
    requires i in Noted(c, x, AllocTimer(queue))
    ensures RequestOk(c, Apply(c, x.sys, AllocTimer(queue)).pool, i, Noted(c, x, AllocTimer(queue))[i])
  {
    FreshIndex(c, all, x.sys, queue);
    var p, p' := x.sys.pool, Apply(c, x.sys, AllocTimer(queue)).pool;
    if p.numAlloc < c.num && i == p.firstFree {
    } else {
      Apart(c, p, p', if p.numAlloc < c.num then p.firstFree else c.num, i, x.asked[i]);
    }
  }

  lemma UnsetAsked(c: Config, all: set<nat>, x: Traced, a: Action, i: nat)
    requires c.Valid() && TracedInv(c, all, x) && Enabled(c, x.sys, a) && (a.FreeTimer? || a.CancelTimer?)
    requires i in Noted(c, x, a)
    ensures RequestOk(c, Apply(c, x.sys, a).pool, i, Noted(c, x, a)[i])
  {
    assert RequestOk(c, x.sys.pool, i, x.asked[i]);
    if i != a.idx {
      Apart(c, x.sys.pool, Apply(c, x.sys, a).pool, a.idx, i, x.asked[i]);
    }
  }

  /** A step of one timer's own keeps its request, and leaves those of the others. */
  lemma OtherAsked(c: Config, all: set<nat>, x: Traced, a: Action, i: nat)
    requires c.Valid() && TracedInv(c, all, x) && Enabled(c, x.sys, a) && !a.Tick?
    requires i in Noted(c, x, a)
    ensures RequestOk(c, Apply(c, x.sys, a).pool, i, Noted(c, x, a)[i])
  {
    match a
    case AllocTimer(queue) => AllocAsked(c, all, x, queue, i);
    case SetAbsolute(idx, abs, tmo) =>
      SetAbsAsked(c, all, x, idx, abs, tmo);
      if i != idx { Apart(c, x.sys.pool, Apply(c, x.sys, a).pool, idx, i, x.asked[i]); }
    case SetRelative(idx, rel, tmo) =>
      SetRelAsked(c, all, x, idx, rel, tmo);
      if i != idx { Apart(c, x.sys.pool, Apply(c, x.sys, a).pool, idx, i, x.asked[i]); }
    case Receive(_) =>
    case _ => UnsetAsked(c, all, x, a, i);
  }

  lemma FreshIndex(c: Config, all: set<nat>, s: System, queue: nat)
    requires c.Valid() && Inv(c, all, s)
    ensures s.pool.numAlloc < c.num ==> s.pool.firstFree < c.num && s.pool.firstFree !in s.live
  {
    AllocationFindsFree(c, all, s, queue);
  }

  lemma KeysAsked(c: Config, all: set<nat>, x: Traced, a: Action)
    requires c.Valid() && TracedInv(c, all, x) && Enabled(c, x.sys, a)
    ensures Noted(c, x, a).Keys == Apply(c, x.sys, a).live
  {
    if a.Tick? {
      TickDisarms(c, x.sys);
    }
  }

  lemma TracedStep(c: Config, all: set<nat>, x: Traced, x': Traced)
    requires c.Valid() && TracedInv(c, all, x) && TracedNext(c, x, x')
    ensures TracedInv(c, all, x')
  {
    var a :| Enabled(c, x.sys, a) && x' == Traced(Apply(c, x.sys, a), Noted(c, x, a));
    assert Next(c, x.sys, x'.sys);
    StepInv(c, all, x.sys, x'.sys);
    KeysAsked(c, all, x, a);
    forall i | i in x'.asked
      ensures RequestOk(c, x'.sys.pool, i, x'.asked[i])
    {
      if a.Tick? {
        TickAsked(c, all, x, i);
      } else {
        OtherAsked(c, all, x, a, i);
      }
    }
  }

  lemma {:induction false} TraceInv(c: Config, all: set<nat>, run: seq<Traced>)
    requires c.Valid() && IsTrace(c, all, run)
    ensures TracedInv(c, all, Last(run))
  {
    if |run| == 1 {
      InitInv(c, all, run[0].sys);
    } else {
      assert IsTrace(c, all, run[..|run| - 1]);
      TraceInv(c, all, run[..|run| - 1]);
      TracedStep(c, all, run[|run| - 2], run[|run| - 1]);
    }
  }

  // ---------------------------------------------------------------- what users get

  /** The timeout is what the user of its timer asked for, and due now. */
  ghost predicate AsAsked(x: Traced, o: Timeout)
  {
    && o.timer in x.asked && x.asked[o.timer].when == Some(x.sys.pool.cur) && x.asked[o.timer].buf.Some?
    && o == Timeout(x.asked[o.timer].queue, o.timer, x.asked[o.timer].buf.value, x.sys.pool.cur)
  }

  /**
   In every run, a tick posts exactly the timers whose users asked for it, each once: to the queue
   given at the allocation, in the buffer given last, with the tick asked for.
   */
  lemma PostsAsked(c: Config, all: set<nat>, run: seq<Traced>)
    requires c.Valid() && IsTrace(c, all, run) && Enabled(c, Last(run).sys, Tick)
    ensures var x, n := Last(run), |Last(run).sys.queued|;
            var after := Apply(c, x.sys, Tick).queued;
            && n <= |after| && after[..n] == x.sys.queued
            && (forall k :: n <= k < |after| ==> AsAsked(x, after[k]))
            && (forall j, k :: n <= j < k < |after| ==> after[j].timer != after[k].timer)
            && (forall i :: i in x.asked && x.asked[i].when == Some(x.sys.pool.cur) ==>
                  exists k :: n <= k < |after| && after[k].timer == i)
  {
    TraceInv(c, all, run);
    var x, n := Last(run), |Last(run).sys.queued|;
    var after := Apply(c, x.sys, Tick).queued;
    TickPosts(c, x.sys);
    OutAsked(c, all, x, n, after);
    forall i | i in x.asked && x.asked[i].when == Some(x.sys.pool.cur)
      ensures exists k :: n <= k < |after| && after[k].timer == i
    {
      AskedPosted(c, all, x, i);
    }
  }

  lemma OutAsked(c: Config, all: set<nat>, x: Traced, n: nat, after: seq<Timeout>)
    requires c.Valid() && TracedInv(c, all, x) && Enabled(c, x.sys, Tick) && n <= |after|
    requires Posted(c, Ticked(x.sys.pool), x.sys.pool.cur, x.sys.pool.highWm, after[n..])
    ensures forall k :: n <= k < |after| ==> AsAsked(x, after[k])
    ensures forall j, k :: n <= j < k < |after| ==> after[j].timer != after[k].timer
  {
    var out := after[n..];
    forall k | n <= k < |after|
      ensures AsAsked(x, after[k])
    {
      assert after[k] == out[k - n];
      PostedAsked(c, all, x, out, k - n);
    }
    forall j, k | n <= j < k < |after|
      ensures after[j].timer != after[k].timer
    {
      assert after[j] == out[j - n] && after[k] == out[k - n];
    }
  }

  lemma PostedAsked(c: Config, all: set<nat>, x: Traced, out: seq<Timeout>, k: nat)
    requires c.Valid() && TracedInv(c, all, x) && Enabled(c, x.sys, Tick) && k < |out|
    requires Posted(c, Ticked(x.sys.pool), x.sys.pool.cur, x.sys.pool.highWm, out)
    ensures AsAsked(x, out[k])
  {
    var i := out[k].timer;
    assert i < c.num && Due(Ticked(x.sys.pool), i, x.sys.pool.cur) && out[k] == TimeoutOf(c, Ticked(x.sys.pool), i);
    assert i in x.sys.live;
    assert RequestOk(c, x.sys.pool, i, x.asked[i]);
  }

  lemma AskedPosted(c: Config, all: set<nat>, x: Traced, i: nat)
    requires c.Valid() && TracedInv(c, all, x) && Enabled(c, x.sys, Tick)
    requires i in x.asked && x.asked[i].when == Some(x.sys.pool.cur)
    ensures exists k ::
              |x.sys.queued| <= k < |Apply(c, x.sys, Tick).queued| && Apply(c, x.sys, Tick).queued[k].timer == i
  {
    assert RequestOk(c, x.sys.pool, i, x.asked[i]);
    OnTime(c, all, x.sys, i);
    var n, after := |x.sys.queued|, Apply(c, x.sys, Tick).queued;
    TickPosts(c, x.sys);
    var j :| 0 <= j < |after[n..]| && after[n..][j].timer == i;
    assert after[n + j].timer == i;
  }

  /** In every run, setting a timer answers as its documentation says, and gives back the right buffer. */
  lemma SetAnswers(c: Config, all: set<nat>, run: seq<Traced>, idx: nat, abs: nat, tmo: Option<nat>)
    requires c.Valid() && IsTrace(c, all, run) && idx in Last(run).asked && Last(run).sys.pool.Sized(c) && idx < c.num
    ensures var x := Last(run);
            var (_, back, res) := SetAbs(c, x.sys.pool, idx, abs, tmo);
            Answer(c, x.sys.pool.cur, x.asked[idx], abs, tmo, back, res)
    ensures var x := Last(run);
            var (_, back, res) := SetRel(c, x.sys.pool, idx, abs, tmo);
            Answer(c, x.sys.pool.cur, x.asked[idx], x.sys.pool.cur + abs, tmo, back, res)
  {
    TraceInv(c, all, run);
    SetAbsAsked(c, all, Last(run), idx, abs, tmo);
    SetRelAsked(c, all, Last(run), idx, abs, tmo);
  }

  /** In every run, cancelling and freeing give back the buffer asked with, if its timeout is still to come. */
  lemma CancelAnswers(c: Config, all: set<nat>, run: seq<Traced>, idx: nat)
    requires c.Valid() && IsTrace(c, all, run) && idx in Last(run).asked && Last(run).sys.pool.Sized(c) && idx < c.num
    ensures Cancel(c, Last(run).sys.pool, idx, TMO_INACTIVE).1 == Last(run).asked[idx].buf
    ensures Last(run).sys.pool.numAlloc > 0 && Free(c, Last(run).sys.pool, idx).1 == Last(run).asked[idx].buf
  {
    TraceInv(c, all, run);
    var x := Last(run);
    assert RequestOk(c, x.sys.pool, idx, x.asked[idx]);
    assert |x.sys.live| == x.sys.pool.numAlloc && idx in x.sys.live;
  }

  ghost predicate Traces(trace: seq<Traced>, run: seq<System>)
  {
    |trace| == |run| && forall i :: 0 <= i < |run| ==> trace[i].sys == run[i]
  }

  /** The history takes nothing away: every run has a trace. */
  lemma {:induction false} EveryRunIsTraced(c: Config, all: set<nat>, run: seq<System>) returns (trace: seq<Traced>)
    requires IsRun(c, all, run)
    ensures IsTrace(c, all, trace) && Traces(trace, run)
  {
    if |run| == 1 {
      trace := [Traced(run[0], map[])];
    } else {
      RunPrefix(c, all, run);
      var before := run[..|run| - 1];
      trace := EveryRunIsTraced(c, all, before);
      var s, s' := run[|run| - 2], run[|run| - 1];
      assert Last(trace).sys == s && Next(c, s, s');
      var a :| Enabled(c, s, a) && s' == Apply(c, s, a);
      var x := Traced(s', Noted(c, Last(trace), a));
      assert TracedNext(c, Last(trace), x);
      var longer := trace + [x];
      forall i | 0 <= i < |longer| - 1
        ensures TracedNext(c, longer[i], longer[i + 1])
      {
        if i < |trace| - 1 {
          assert longer[i] == trace[i] && longer[i + 1] == trace[i + 1];
        }
      }
      trace := longer;
    }
  }

  /** Users are free: any timer in use may be set, cancelled and freed, any queued timeout received, at any time. */
  lemma AnyUse(c: Config, all: set<nat>, x: Traced, idx: nat, tick: nat, tmo: Option<nat>, queue: nat, k: nat)
    requires c.Valid() && TracedInv(c, all, x) && (tmo.Some? ==> tmo.value in x.sys.user)
    ensures Enabled(c, x.sys, AllocTimer(queue)) && (k < |x.sys.queued| ==> Enabled(c, x.sys, Receive(k)))
    ensures idx in x.asked ==> Enabled(c, x.sys, FreeTimer(idx)) && Enabled(c, x.sys, CancelTimer(idx))
                               && Enabled(c, x.sys, SetAbsolute(idx, tick, tmo))
                               && Enabled(c, x.sys, SetRelative(idx, tick, tmo))
    ensures x.sys.pool.cur + 1 + c.maxRel < TMO_INACTIVE ==> Enabled(c, x.sys, Tick)
  {
    AllocationFindsFree(c, all, x.sys, queue);
    if idx in x.asked {
      assert RequestOk(c, x.sys.pool, idx, x.asked[idx]);
      assert |x.sys.live| == x.sys.pool.numAlloc && idx in x.sys.live;
    }
  }
}
