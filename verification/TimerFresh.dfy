/**
 What odp_timeout_fresh tells a user, over every run of a timer pool: which operation last
 touched the timer of a posted timeout is kept as history, and the test is compared with it.
 */
module TimerFresh {
  import opened Sequences
  import opened Options
  import opened Timer
  import opened TimerRuns

  /** The last operation on the timer of a timeout since the tick that posted it. */
  datatype Touch = Untouched | SetTo(abs: nat) | Cancelled | Freed | Allocated

  datatype Post = Post(o: Timeout, last: Touch)

  /** `posts`: every timeout ever posted, received or not (history). */
  datatype Traced = Traced(sys: System, posts: seq<Post>)

  /** The timer an operation changes, and how; a set that is refused changes none. */
  function Touched(c: Config, s: System, a: Action): Option<(nat, Touch)>
    requires Enabled(c, s, a)
  {
    match a
    case AllocTimer(_) => if s.pool.numAlloc < c.num then Some((s.pool.firstFree, Allocated)) else None
    case FreeTimer(idx) => Some((idx, Freed))
    case SetAbsolute(idx, abs, tmo) =>
      if SetAbs(c, s.pool, idx, abs, tmo).2.Success? then Some((idx, SetTo(abs))) else None
    case SetRelative(idx, rel, tmo) =>
      if SetRel(c, s.pool, idx, rel, tmo).2.Success? then Some((idx, SetTo(Wrap64(s.pool.cur + rel)))) else None
    case CancelTimer(idx) => Some((idx, Cancelled))
    case Tick => None
    case Receive(_) => None
  }

  function Mark(post: Post, t: Option<(nat, Touch)>): Post
  {
    if t.Some? && post.o.timer == t.value.0 then post.(last := t.value.1) else post
  }

  function Marked(posts: seq<Post>, t: Option<(nat, Touch)>): (r: seq<Post>)
    ensures |r| == |posts| && forall k :: 0 <= k < |r| ==> r[k] == Mark(posts[k], t)
  {
    seq(|posts|, k requires 0 <= k < |posts| => Mark(posts[k], t))
  }

  function Posts(out: seq<Timeout>): (r: seq<Post>)
    ensures |r| == |out| && forall k :: 0 <= k < |r| ==> r[k] == Post(out[k], Untouched)
  {
    seq(|out|, k requires 0 <= k < |out| => Post(out[k], Untouched))
  }

  /** The timeouts a step posts. */
  function NewPosts(c: Config, s: System, a: Action): seq<Timeout>
    requires Enabled(c, s, a)
  {
    if a.Tick? then Notify(c, s.pool).1 else []
  }

  function TracedApply(c: Config, t: Traced, a: Action): Traced
    requires Enabled(c, t.sys, a)
  {
    Traced(Apply(c, t.sys, a), Marked(t.posts, Touched(c, t.sys, a)) + Posts(NewPosts(c, t.sys, a)))
  }

  ghost predicate TracedNext(c: Config, t: Traced, t': Traced)
  {
    exists a :: Enabled(c, t.sys, a) && t' == TracedApply(c, t, a)
  }

  ghost predicate IsTrace(c: Config, all: set<nat>, run: seq<Traced>)
  {
    && |run| > 0 && Init(c, all, run[0].sys) && run[0].posts == []
    && forall i :: 0 <= i < |run| - 1 ==> TracedNext(c, run[i], run[i + 1])
  }

  // ---------------------------------------------------------------- the invariant

  /** The tick of the timer is what the last operation on it left there, armed or expired. */
  predicate PostOk(c: Config, p: Pool, post: Post)
  {
    var i, e := post.o.timer, post.o.expiration;
    && p.Sized(c) && i < c.num && c.minRel <= e < p.cur
    && match post.last
       case Untouched => p.ticks[i] == e + TMO_INACTIVE && p.bufs[i].None?
       case SetTo(abs) => e < abs < TMO_INACTIVE && p.ticks[i] % TMO_INACTIVE == abs
       case Cancelled => p.ticks[i] == TMO_INACTIVE
       case Freed => p.ticks[i] == TMO_UNUSED
       case Allocated => p.ticks[i] == TMO_INACTIVE
  }

  ghost predicate PostsOk(c: Config, t: Traced)
  {
    forall k :: 0 <= k < |t.posts| ==> PostOk(c, t.sys.pool, t.posts[k])
  }

  /** No timer is armed for less than the least distance. */
  ghost predicate Delayed(c: Config, p: Pool)
    requires p.Sized(c)
  {
    forall i :: 0 <= i < c.num && p.bufs[i].Some? ==> c.minRel <= p.ticks[i]
  }

  ghost predicate TracedInv(c: Config, all: set<nat>, t: Traced)
  {
    Inv(c, all, t.sys) && PostsOk(c, t) && Delayed(c, t.sys.pool)
  }

  lemma StepDelayed(c: Config, all: set<nat>, s: System, a: Action)
    requires c.Valid() && Inv(c, all, s) && Delayed(c, s.pool) && Enabled(c, s, a)
    ensures Apply(c, s, a).pool.Sized(c) && Delayed(c, Apply(c, s, a).pool)
  {
    if a.Tick? {
      TickDisarms(c, s);
      DisarmedDelayed(c, s.pool, Apply(c, s, a).pool, s.pool.cur, s.pool.highWm);
    } else if a.SetAbsolute? || a.SetRelative? {
      SetDelayed(c, all, s, a);
    }
  }

  lemma DisarmedDelayed(c: Config, p: Pool, p': Pool, tick: nat, n: nat)
    requires p.Sized(c) && Delayed(c, p) && Disarmed(c, p.(cur := p'.cur), tick, n, p')
    ensures p'.Sized(c) && Delayed(c, p')
  {
  }

  lemma SetDelayed(c: Config, all: set<nat>, s: System, a: Action)
    requires c.Valid() && Inv(c, all, s) && Delayed(c, s.pool) && Enabled(c, s, a) && (a.SetAbsolute? || a.SetRelative?)
    ensures Apply(c, s, a).pool.Sized(c) && Delayed(c, Apply(c, s, a).pool)
  {
    if Touched(c, s, a).Some? {
      SetLater(c, all, s, a);
    } else {
      SetRefused(c, s, a);
    }
  }

  /** A timer that is set expires later than everything posted before. */
  lemma SetLater(c: Config, all: set<nat>, s: System, a: Action)
    requires c.Valid() && Inv(c, all, s) && Enabled(c, s, a) && (a.SetAbsolute? || a.SetRelative?)
    requires Touched(c, s, a).Some?
    ensures Touched(c, s, a).value.0 == a.idx && Touched(c, s, a).value.1.SetTo?
    ensures s.pool.cur + c.minRel <= Touched(c, s, a).value.1.abs < TMO_INACTIVE
    ensures Apply(c, s, a).pool.ticks == s.pool.ticks[a.idx := Touched(c, s, a).value.1.abs]
    ensures forall i :: 0 <= i < c.num && i != a.idx ==> Apply(c, s, a).pool.bufs[i] == s.pool.bufs[i]
    ensures Apply(c, s, a).pool.cur == s.pool.cur && Apply(c, s, a).pool.Sized(c)
  {
  }

  lemma SetPost(c: Config, all: set<nat>, s: System, a: Action, post: Post)
    requires c.Valid() && Inv(c, all, s) && Enabled(c, s, a) && (a.SetAbsolute? || a.SetRelative?)
    requires PostOk(c, s.pool, post)
    ensures PostOk(c, Apply(c, s, a).pool, Mark(post, Touched(c, s, a)))
  {
    if Touched(c, s, a).Some? {
      SetLater(c, all, s, a);
      ResetPost(c, s.pool, Apply(c, s, a).pool, a.idx, Touched(c, s, a).value.1.abs, post);
    } else {
      SetRefused(c, s, a);
    }
  }

  /** A set that does not succeed leaves every tick and buffer. */
  lemma SetRefused(c: Config, s: System, a: Action)
    requires Enabled(c, s, a) && (a.SetAbsolute? || a.SetRelative?) && Touched(c, s, a).None?
    ensures Apply(c, s, a).pool == s.pool
  {
  }

  lemma ResetPost(c: Config, p: Pool, p': Pool, idx: nat, abs: nat, post: Post)
    requires PostOk(c, p, post) && idx < c.num && p'.Sized(c) && p'.cur == p.cur <= abs < TMO_INACTIVE
    requires p'.ticks == p.ticks[idx := abs] && forall i :: 0 <= i < c.num && i != idx ==> p'.bufs[i] == p.bufs[i]
    ensures PostOk(c, p', Mark(post, Some((idx, SetTo(abs)))))
  {
  }

  lemma OtherPost(c: Config, all: set<nat>, s: System, a: Action, post: Post)
    requires c.Valid() && Inv(c, all, s) && Enabled(c, s, a) && !a.SetAbsolute? && !a.SetRelative? && !a.Tick?
    requires PostOk(c, s.pool, post)
    ensures PostOk(c, Apply(c, s, a).pool, Mark(post, Touched(c, s, a)))
  {
  }

  /** A tick leaves the tick of a timer, up to the expired bit. */
  lemma TickPost(c: Config, all: set<nat>, s: System, post: Post)
    requires c.Valid() && Inv(c, all, s) && Enabled(c, s, Tick) && PostOk(c, s.pool, post)
    ensures PostOk(c, Apply(c, s, Tick).pool, post)
  {
    TickDisarms(c, s);
    assert Wrap64(s.pool.cur + 1) == s.pool.cur + 1;
    DisarmedPost(c, s.pool, Apply(c, s, Tick).pool, s.pool.cur, s.pool.highWm, post);
  }

  lemma DisarmedPost(c: Config, p: Pool, p': Pool, tick: nat, n: nat, post: Post)
    requires PostOk(c, p, post) && p'.cur == p.cur + 1 && Disarmed(c, p.(cur := p'.cur), tick, n, p')
    requires tick < TMO_INACTIVE
    ensures PostOk(c, p', post)
  {
  }

  lemma NewPost(c: Config, all: set<nat>, s: System, k: nat)
    requires c.Valid() && Inv(c, all, s) && Delayed(c, s.pool) && Enabled(c, s, Tick) && k < |Notify(c, s.pool).1|
    ensures PostOk(c, Apply(c, s, Tick).pool, Post(Notify(c, s.pool).1[k], Untouched))
  {
    TickDisarms(c, s);
    assert Wrap64(s.pool.cur + 1) == s.pool.cur + 1;
    assert Posted(c, Ticked(s.pool), s.pool.cur, s.pool.highWm, Notify(c, s.pool).1) by {
      ScanPosts(c, Ticked(s.pool), s.pool.cur, s.pool.highWm);
    }
    PostedIsOk(c, Ticked(s.pool), Apply(c, s, Tick).pool, s.pool.cur, s.pool.highWm, Notify(c, s.pool).1, k);
  }

  /** What a scan posts is untouched. */
  lemma PostedIsOk(c: Config, p: Pool, p': Pool, tick: nat, n: nat, out: seq<Timeout>, k: nat)
    requires p.Sized(c) && Delayed(c, p) && tick < p.cur && tick < TMO_INACTIVE
    requires Disarmed(c, p, tick, n, p') && Posted(c, p, tick, n, out) && k < |out|
    ensures PostOk(c, p', Post(out[k], Untouched))
  {
    assert Due(p, out[k].timer, tick) && out[k] == TimeoutOf(c, p, out[k].timer);
  }

  lemma StepPosts(c: Config, all: set<nat>, t: Traced, a: Action)
    requires c.Valid() && TracedInv(c, all, t) && Enabled(c, t.sys, a)
    ensures PostsOk(c, TracedApply(c, t, a))
  {
    var t' := TracedApply(c, t, a);
    forall k | 0 <= k < |t'.posts|
      ensures PostOk(c, t'.sys.pool, t'.posts[k])
    {
      if k >= |t.posts| {
        NewPost(c, all, t.sys, k - |t.posts|);
      } else if a.Tick? {
        TickPost(c, all, t.sys, t.posts[k]);
      } else if a.SetAbsolute? || a.SetRelative? {
        SetPost(c, all, t.sys, a, t.posts[k]);
      } else {
        OtherPost(c, all, t.sys, a, t.posts[k]);
      }
    }
  }

  lemma TracePrefix(c: Config, all: set<nat>, run: seq<Traced>)
    requires IsTrace(c, all, run) && |run| > 1
    ensures IsTrace(c, all, run[..|run| - 1]) && TracedNext(c, Last(run[..|run| - 1]), Last(run))
  {
    var was := run[..|run| - 1];
    forall i | 0 <= i < |was| - 1
      ensures TracedNext(c, was[i], was[i + 1])
    {
      assert TracedNext(c, run[i], run[i + 1]);
    }
    var k := |run| - 2;
    assert TracedNext(c, run[k], run[k + 1]);
  }

  lemma {:induction false} TraceInv(c: Config, all: set<nat>, run: seq<Traced>)
    requires c.Valid() && IsTrace(c, all, run)
    ensures TracedInv(c, all, Last(run))
  {
    if |run| == 1 {
      InitInv(c, all, run[0].sys);
    } else {
      TracePrefix(c, all, run);
      var was := run[..|run| - 1];
      TraceInv(c, all, was);
      var t := Last(was);
      var a :| Enabled(c, t.sys, a) && Last(run) == TracedApply(c, t, a);
      assert Next(c, t.sys, Last(run).sys);
      StepInv(c, all, t.sys, Last(run).sys);
      StepPosts(c, all, t, a);
      StepDelayed(c, all, t.sys, a);
    }
  }

  // ---------------------------------------------------------------- what the test tells

  /**
   In every run, at any time after a timeout was posted, the test says fresh if and only if
   its timer has not been touched since, or the timeout expired at tick 0 and the timer was
   last cancelled or given out again.
   */
  lemma FreshExactly(c: Config, all: set<nat>, run: seq<Traced>, k: nat)
    requires c.Valid() && IsTrace(c, all, run) && k < |Last(run).posts|
    ensures var t := Last(run);
            && t.posts[k].o.timer < |t.sys.pool.ticks|
            && (Fresh(t.sys.pool, t.posts[k].o) <==>
                || t.posts[k].last.Untouched?
                || (t.posts[k].o.expiration == 0 && (t.posts[k].last.Cancelled? || t.posts[k].last.Allocated?)))
  {
    TraceInv(c, all, run);
    assert PostOk(c, Last(run).sys.pool, Last(run).posts[k]);
  }

  // ---------------------------------------------------------------- runs and traces

  ghost predicate Traces(trace: seq<Traced>, run: seq<System>)
  {
    |trace| == |run| && forall i :: 0 <= i < |run| ==> trace[i].sys == run[i]
  }

  /** The history takes nothing away: every run of the pool has a trace. */
  lemma {:induction false} EveryRunIsTraced(c: Config, all: set<nat>, run: seq<System>) returns (trace: seq<Traced>)
    requires IsRun(c, all, run)
    ensures IsTrace(c, all, trace) && Traces(trace, run)
  {
    if |run| == 1 {
      trace := [Traced(run[0], [])];
    } else {
      RunPrefix(c, all, run);
      var was := run[..|run| - 1];
      var shorter := EveryRunIsTraced(c, all, was);
      trace := TraceStep(c, all, shorter, was, Last(run));
      assert run == was + [Last(run)];
    }
  }

  lemma TraceStep(c: Config, all: set<nat>, trace: seq<Traced>, run: seq<System>,
                  s: System) returns (longer: seq<Traced>)
    requires IsTrace(c, all, trace) && Traces(trace, run) && Next(c, Last(run), s)
    ensures IsTrace(c, all, longer) && Traces(longer, run + [s])
  {
    assert Last(trace).sys == Last(run);
    var a :| Enabled(c, Last(run), a) && s == Apply(c, Last(run), a);
    longer := Extend(c, all, trace, a);
  }

  lemma Extend(c: Config, all: set<nat>, run: seq<Traced>, a: Action) returns (longer: seq<Traced>)
    requires IsTrace(c, all, run) && Enabled(c, Last(run).sys, a)
    ensures IsTrace(c, all, longer) && longer == run + [TracedApply(c, Last(run), a)]
  {
    longer := run + [TracedApply(c, Last(run), a)];
    assert TracedNext(c, Last(run), Last(longer));
    forall i | 0 <= i < |longer| - 1
      ensures TracedNext(c, longer[i], longer[i + 1])
    {
      if i < |run| - 1 {
        assert TracedNext(c, run[i], run[i + 1]);
      }
    }
  }

  // ---------------------------------------------------------------- when the test is exact

  /** The test tells of every timeout posted so far whether its timer has been touched. */
  ghost predicate Honest(t: Traced)
  {
    forall k :: 0 <= k < |t.posts| && t.posts[k].o.timer < |t.sys.pool.ticks| ==>
      (Fresh(t.sys.pool, t.posts[k].o) <==> t.posts[k].last.Untouched?)
  }

  function Start(c: Config, all: set<nat>): Traced
  {
    Traced(System(NewPool(c), {}, [], all, []), [])
  }

  /** A timer set for tick 0 before the clock has ticked. */
  lemma SetForZero(c: Config, all: set<nat>, b: nat) returns (run: seq<Traced>)
    requires c.Valid() && c.num >= 1 && c.minRel == 0 && c.maxRel + 1 < TMO_INACTIVE && b in all
    ensures IsTrace(c, all, run) && Last(run).posts == [] && 0 in Last(run).sys.live
    ensures var p := Last(run).sys.pool;
            && p.Sized(c) && p.cur == 0 && p.highWm == 1 && p.numAlloc == 1 && p.bufs[0] == Some(b) && p.ticks[0] == 0
  {
    run := [Start(c, all)];
    run := Extend(c, all, run, AllocTimer(0));
    run := Extend(c, all, run, SetAbsolute(0, 0, Some(b)));
  }

  /** The tick that posts it. */
  lemma ExpiredAtZero(c: Config, all: set<nat>, b: nat) returns (run: seq<Traced>, k: nat)
    requires c.Valid() && c.num >= 1 && c.minRel == 0 && c.maxRel + 1 < TMO_INACTIVE && b in all
    ensures IsTrace(c, all, run) && k < |Last(run).posts| && Last(run).posts[k].o.timer == 0
    ensures Last(run).posts[k].o.expiration == 0 && 0 in Last(run).sys.live && Last(run).sys.pool.Sized(c)
    ensures Last(run).sys.pool.numAlloc == 1
  {
    run := SetForZero(c, all, b);
    var s := Last(run).sys;
    run := Extend(c, all, run, Tick);
    TickDisarms(c, s);
    assert Posted(c, Ticked(s.pool), 0, 1, Notify(c, s.pool).1) by {
      ScanPosts(c, Ticked(s.pool), 0, 1);
    }
    assert Due(Ticked(s.pool), 0, 0);
    var o := TimeoutOf(c, Ticked(s.pool), 0);
    k :| 0 <= k < |Notify(c, s.pool).1| && Notify(c, s.pool).1[k] == o;
  }

  /** The cancel that goes unnoticed. */
  lemma CancelUnnoticed(c: Config, all: set<nat>, b: nat) returns (run: seq<Traced>)
    requires c.Valid() && c.num >= 1 && c.minRel == 0 && c.maxRel + 1 < TMO_INACTIVE && b in all
    ensures IsTrace(c, all, run) && !Honest(Last(run))
  {
    var k;
    run, k := ExpiredAtZero(c, all, b);
    var t := Last(run);
    run := Extend(c, all, run, CancelTimer(0));
    FreshExactly(c, all, run, k);
    assert Last(run).posts[k] == Post(t.posts[k].o, Cancelled);
  }

  /** Freed and given out again: to its new user, the timeout of the old one looks fresh. */
  lemma ReuseUnnoticed(c: Config, all: set<nat>, b: nat) returns (run: seq<Traced>, k: nat)
    requires c.Valid() && c.num >= 1 && c.minRel == 0 && c.maxRel + 1 < TMO_INACTIVE && b in all
    ensures |run| > 1 && IsTrace(c, all, run) && k < |Last(run).posts| && |Last(run).posts| == |run[|run| - 2].posts|
    ensures Last(run).posts[k].last.Allocated? && Last(run).posts[k].o.timer < |Last(run).sys.pool.ticks|
    ensures Fresh(Last(run).sys.pool, Last(run).posts[k].o)
    ensures run[|run| - 2].posts[k].last.Freed? && |run[|run| - 2].sys.pool.ticks| == |Last(run).sys.pool.ticks|
    ensures !Fresh(run[|run| - 2].sys.pool, Last(run).posts[k].o)
  {
    run, k := ExpiredAtZero(c, all, b);
    var t := Last(run);
    run := Extend(c, all, run, FreeTimer(0));
    FreshExactly(c, all, run, k);
    var freed := run;
    run := Extend(c, all, run, AllocTimer(1));
    assert run[|run| - 2] == Last(freed);
    FreshExactly(c, all, run, k);
  }

  /**
   The test is exact in every run if and only if the pool was created with a least distance of
   at least one tick; else a timer set for tick 0 can be cancelled or reused unnoticed.
   */
  lemma ExactIffDelayed(c: Config, all: set<nat>)
    requires c.Valid() && c.num >= 1 && c.maxRel + 1 < TMO_INACTIVE && all != {}
    ensures c.minRel >= 1 <==> forall run :: IsTrace(c, all, run) ==> Honest(Last(run))
  {
    if c.minRel >= 1 {
      forall run | IsTrace(c, all, run)
        ensures Honest(Last(run))
      {
        DelayedHonest(c, all, run);
      }
    } else {
      var b :| b in all;
      var run := CancelUnnoticed(c, all, b);
      assert IsTrace(c, all, run) && !Honest(Last(run));
    }
  }

  lemma DelayedHonest(c: Config, all: set<nat>, run: seq<Traced>)
    requires c.Valid() && c.minRel >= 1 && IsTrace(c, all, run)
    ensures Honest(Last(run))
  {
    TraceInv(c, all, run);
    forall k | 0 <= k < |Last(run).posts|
      ensures Last(run).posts[k].o.timer < |Last(run).sys.pool.ticks|
      ensures Fresh(Last(run).sys.pool, Last(run).posts[k].o) <==> Last(run).posts[k].last.Untouched?
    {
      FreshExactly(c, all, run, k);
      assert PostOk(c, Last(run).sys.pool, Last(run).posts[k]);
    }
  }
}
