/**
 Every run of a timer pool with its users: allocation, setting, cancelling, freeing,
 clock ticks and reception of timeouts in any order, each as one step.
 */
module TimerRuns {
  import opened Options
  import opened Timer

  /**
   `live`: the timers in use.  `recycled`: the freed timers, last freed first (history).
   `user`: the buffers in the hands of users.  `queued`: posted, not yet received timeouts.
   */
  datatype System = System(pool: Pool, live: set<nat>, recycled: seq<nat>, user: set<nat>, queued: seq<Timeout>)

  datatype Action =
    | AllocTimer(queue: nat)
    | FreeTimer(idx: nat)
    | SetAbsolute(idx: nat, abs: nat, tmo: Option<nat>)
    | SetRelative(idx: nat, rel: nat, tmo: Option<nat>)
    | CancelTimer(idx: nat)
    | Tick
    | Receive(k: nat)

  /** A timer is used only between its allocation and its free; a buffer is passed only by its owner. */
  predicate Enabled(c: Config, s: System, a: Action)
  {
    && s.pool.Sized(c)
    && match a
       case AllocTimer(_) => s.pool.numAlloc < c.num ==> s.pool.firstFree < c.num
       case FreeTimer(idx) => idx in s.live && idx < c.num && s.pool.numAlloc > 0
       case SetAbsolute(idx, abs, tmo) => idx in s.live && idx < c.num && (tmo.Some? ==> tmo.value in s.user)
       case SetRelative(idx, rel, tmo) => idx in s.live && idx < c.num && (tmo.Some? ==> tmo.value in s.user)
       case CancelTimer(idx) => idx in s.live && idx < c.num
       // ticks stay below 2^63
       case Tick => s.pool.highWm <= c.num && s.pool.cur + 1 + c.maxRel < TMO_INACTIVE
       case Receive(k) => k < |s.queued|
  }

  function Given(user: set<nat>, tmo: Option<nat>): set<nat> { if tmo.Some? then user - {tmo.value} else user }
  function Got(user: set<nat>, b: Option<nat>): set<nat> { if b.Some? then user + {b.value} else user }

  function Apply(c: Config, s: System, a: Action): System
    requires Enabled(c, s, a)
  {
    match a
    case AllocTimer(queue) =>
      var (p, idx) := Alloc(c, s.pool, queue);
      if idx.Some? then
        s.(pool := p, live := s.live + {idx.value}, recycled := if s.recycled == [] then [] else s.recycled[1..])
      else s
    case FreeTimer(idx) =>
      var (p, b) := Free(c, s.pool, idx);
      s.(pool := p, live := s.live - {idx}, recycled := [idx] + s.recycled, user := Got(s.user, b))
    case SetAbsolute(idx, abs, tmo) =>
      var (p, b, _) := SetAbs(c, s.pool, idx, abs, tmo);
      s.(pool := p, user := Got(Given(s.user, tmo), b))
    case SetRelative(idx, rel, tmo) =>
      var (p, b, _) := SetRel(c, s.pool, idx, rel, tmo);
      s.(pool := p, user := Got(Given(s.user, tmo), b))
    case CancelTimer(idx) =>
      var (p, b) := Cancel(c, s.pool, idx, TMO_INACTIVE);
      s.(pool := p, user := Got(s.user, b))
    case Tick =>
      var (p, out) := Notify(c, s.pool);
      s.(pool := p, queued := s.queued + out)
    case Receive(k) =>
      s.(queued := s.queued[..k] + s.queued[k + 1..], user := s.user + {s.queued[k].buf})
  }

  ghost predicate Init(c: Config, all: set<nat>, s: System)
  {
    s == System(NewPool(c), {}, [], all, [])
  }

  ghost predicate Next(c: Config, s: System, s': System)
  {
    exists a :: Enabled(c, s, a) && s' == Apply(c, s, a)
  }

  ghost predicate IsRun(c: Config, all: set<nat>, run: seq<System>)
  {
    && |run| > 0 && Init(c, all, run[0])
    && forall i :: 0 <= i < |run| - 1 ==> Next(c, run[i], run[i + 1])
  }

  // ---------------------------------------------------------------- the free list

  /** The i-th free index: first the recycled ones, then the untouched ones, then the end mark. */
  function FreeAt(s: System, i: nat): nat
  {
    if i < |s.recycled| then s.recycled[i] else s.pool.highWm + (i - |s.recycled|)
  }

  /**
   The free list is the recycled stack followed by the indices from the high water mark on,
   and the water mark has passed every index ever allocated.
   */
  ghost predicate FreeList(c: Config, s: System)
  {
    var p := s.pool;
    && p.Sized(c) && p.highWm <= c.num && |s.recycled| + p.numAlloc == p.highWm
    && p.firstFree == FreeAt(s, 0)
    && (forall i :: 0 <= i < c.num - p.numAlloc ==> FreeAt(s, i) < c.num && p.links[FreeAt(s, i)] == FreeAt(s, i + 1))
    && (forall i :: 0 <= i < |s.recycled| ==> s.recycled[i] < p.highWm && s.recycled[i] !in s.live)
    && (forall i, j :: 0 <= i < j < |s.recycled| ==> s.recycled[i] != s.recycled[j])
    && (forall i :: i in s.live ==> i < p.highWm)
    && |s.live| == p.numAlloc
  }

  /** A timer is armed iff it has a buffer, and then its tick has not passed. */
  ghost predicate Timers(c: Config, s: System)
  {
    var p := s.pool;
    && p.Sized(c) && p.cur + c.maxRel < TMO_INACTIVE
    && forall i :: 0 <= i < c.num ==>
         if i in s.live
         then (p.bufs[i].Some? <==> p.ticks[i] < TMO_INACTIVE) && (p.bufs[i].Some? ==> p.cur <= p.ticks[i])
         else p.ticks[i] == TMO_UNUSED && p.bufs[i].None?
  }

  /** Every buffer is with a user, in one timer, or in one queued timeout. */
  ghost predicate Buffers(c: Config, all: set<nat>, s: System)
  {
    var p := s.pool;
    && p.Sized(c) && s.user <= all
    && (forall i :: 0 <= i < c.num && p.bufs[i].Some? ==> p.bufs[i].value in all - s.user)
    && (forall i, j :: 0 <= i < j < c.num && p.bufs[i].Some? ==> p.bufs[i] != p.bufs[j])
    && (forall k :: 0 <= k < |s.queued| ==> s.queued[k].buf in all - s.user)
    && (forall j, k :: 0 <= j < k < |s.queued| ==> s.queued[j].buf != s.queued[k].buf)
    && (forall i, k :: 0 <= i < c.num && 0 <= k < |s.queued| ==> p.bufs[i] != Some(s.queued[k].buf))
    && (forall b :: b in all ==> b in s.user || InTimer(c, p, b) || InQueue(s, b))
  }

  ghost predicate InTimer(c: Config, p: Pool, b: nat)
    requires p.Sized(c)
  {
    exists i :: 0 <= i < c.num && p.bufs[i] == Some(b)
  }

  ghost predicate InQueue(s: System, b: nat)
  {
    exists k :: 0 <= k < |s.queued| && s.queued[k].buf == b
  }

  ghost predicate Inv(c: Config, all: set<nat>, s: System)
  {
    FreeList(c, s) && Timers(c, s) && Buffers(c, all, s)
  }

  lemma InitInv(c: Config, all: set<nat>, s: System)
    requires c.Valid() && Init(c, all, s)
    ensures Inv(c, all, s)
  {
  }

  lemma AllocFreeList(c: Config, s: System, a: Action)
    requires FreeList(c, s) && a.AllocTimer? && Enabled(c, s, a)
    ensures FreeList(c, Apply(c, s, a))
  {
    var s' := Apply(c, s, a);
    if s.pool.numAlloc < c.num {
      var idx := s.pool.firstFree;
      assert idx == FreeAt(s, 0) && idx !in s.live;
      assert forall i: nat :: FreeAt(s', i) == FreeAt(s, i + 1);
      forall i | 0 <= i < c.num - s'.pool.numAlloc
        ensures FreeAt(s', i) < c.num && s'.pool.links[FreeAt(s', i)] == FreeAt(s', i + 1)
      {
        assert FreeAt(s, i + 1) != idx;
        assert s.pool.links[FreeAt(s, i + 1)] == FreeAt(s, i + 1 + 1);
      }
    }
  }

  lemma FreeFreeList(c: Config, s: System, a: Action)
    requires FreeList(c, s) && a.FreeTimer? && Enabled(c, s, a)
    ensures FreeList(c, Apply(c, s, a))
  {
    var s' := Apply(c, s, a);
    forall i | 0 <= i < c.num - s'.pool.numAlloc
      ensures FreeAt(s', i) < c.num && s'.pool.links[FreeAt(s', i)] == FreeAt(s', i + 1)
    {
      FreeLink(c, s, a, i);
    }
  }

  /** The freed timer is linked to the first free one, and the others are as they were. */
  lemma FreeLink(c: Config, s: System, a: Action, i: nat)
    requires FreeList(c, s) && a.FreeTimer? && Enabled(c, s, a) && i < c.num - Apply(c, s, a).pool.numAlloc
    ensures var s' := Apply(c, s, a);
            FreeAt(s', i) < c.num && s'.pool.links[FreeAt(s', i)] == FreeAt(s', i + 1)
  {
    var s' := Apply(c, s, a);
    assert FreeAt(s', i + 1) == FreeAt(s, i);
    if i > 0 {
      var j := i - 1;
      assert FreeAt(s', i) == FreeAt(s, j) && FreeAt(s, j) != a.idx;
      assert s.pool.links[FreeAt(s, j)] == FreeAt(s, j + 1);
    }
  }

  /** The free list does not depend on ticks, buffers or the clock. */
  lemma FreeListFrame(c: Config, s: System, s': System)
    requires FreeList(c, s) && s'.pool.Sized(c) && s'.live == s.live && s'.recycled == s.recycled
    requires s'.pool == s.pool.(ticks := s'.pool.ticks, bufs := s'.pool.bufs, cur := s'.pool.cur)
    ensures FreeList(c, s')
  {
    assert forall i: nat :: FreeAt(s', i) == FreeAt(s, i);
  }

  /** The other operations leave the free list alone. */
  lemma OtherFreeList(c: Config, s: System, a: Action)
    requires FreeList(c, s) && !a.AllocTimer? && !a.FreeTimer? && Enabled(c, s, a)
    ensures FreeList(c, Apply(c, s, a))
  {
    if a.Tick? {
      ScanDisarms(c, s.pool.(cur := Wrap64(s.pool.cur + 1)), s.pool.cur, s.pool.highWm);
    }
    FreeListFrame(c, s, Apply(c, s, a));
  }

  // ---------------------------------------------------------------- ticks

  /** The pool a tick scans: the clock already moved on. */
  function Ticked(p: Pool): Pool { p.(cur := Wrap64(p.cur + 1)) }

  lemma TickDisarms(c: Config, s: System)
    requires Enabled(c, s, Tick)
    ensures Disarmed(c, Ticked(s.pool), s.pool.cur, s.pool.highWm, Apply(c, s, Tick).pool)
    ensures Apply(c, s, Tick) == s.(pool := Apply(c, s, Tick).pool, queued := Apply(c, s, Tick).queued)
  {
    ScanDisarms(c, Ticked(s.pool), s.pool.cur, s.pool.highWm);
  }

  lemma TickPosts(c: Config, s: System)
    requires Enabled(c, s, Tick)
    ensures |s.queued| <= |Apply(c, s, Tick).queued|
    ensures Apply(c, s, Tick).queued[..|s.queued|] == s.queued
    ensures Posted(c, Ticked(s.pool), s.pool.cur, s.pool.highWm, Apply(c, s, Tick).queued[|s.queued|..])
  {
    ScanPosts(c, Ticked(s.pool), s.pool.cur, s.pool.highWm);
    var out := Notify(c, s.pool).1;
    assert (s.queued + out)[|s.queued|..] == out;
  }

  lemma TickTimers(c: Config, s: System)
    requires c.Valid() && FreeList(c, s) && Timers(c, s) && Enabled(c, s, Tick)
    ensures Timers(c, Apply(c, s, Tick))
  {
    TickDisarms(c, s);
    assert Wrap64(s.pool.cur + 1) == s.pool.cur + 1;
  }

  lemma AllocTimers(c: Config, s: System, a: Action)
    requires c.Valid() && FreeList(c, s) && Timers(c, s) && a.AllocTimer? && Enabled(c, s, a)
    ensures Timers(c, Apply(c, s, a))
  {
    if s.pool.numAlloc < c.num {
      assert s.pool.firstFree == FreeAt(s, 0) < c.num;
    }
  }

  lemma SetTimers(c: Config, s: System, a: Action)
    requires c.Valid() && Timers(c, s) && (a.SetAbsolute? || a.SetRelative?) && Enabled(c, s, a)
    ensures Timers(c, Apply(c, s, a))
  {
  }

  lemma OtherTimers(c: Config, s: System, a: Action)
    requires c.Valid() && FreeList(c, s) && Timers(c, s) && !a.Tick? && Enabled(c, s, a)
    ensures Timers(c, Apply(c, s, a))
  {
    if a.AllocTimer? {
      AllocTimers(c, s, a);
    } else if a.SetAbsolute? || a.SetRelative? {
      SetTimers(c, s, a);
    }
  }

  // ---------------------------------------------------------------- buffers

  lemma ResetBuffers(c: Config, all: set<nat>, s: System, idx: nat, abs: nat, tmo: Option<nat>, s': System)
    requires Buffers(c, all, s) && idx < c.num && (tmo.Some? ==> tmo.value in s.user)
    requires var (p, b, _) := Reset(c, s.pool, idx, abs, tmo);
             s' == s.(pool := p, user := Got(Given(s.user, tmo), b))
    ensures Buffers(c, all, s')
  {
    forall b | b in all
      ensures b in s'.user || InTimer(c, s'.pool, b) || InQueue(s', b)
    {
      if InTimer(c, s.pool, b) {
        var i :| 0 <= i < c.num && s.pool.bufs[i] == Some(b);
        assert s'.pool.bufs[i] == Some(b) || b in s'.user;
      } else if InQueue(s, b) {
        assert InQueue(s', b);
      } else if tmo == Some(b) {
        assert s'.pool.bufs[idx] == Some(b);
      }
    }
  }

  lemma SetBuffers(c: Config, all: set<nat>, s: System, a: Action)
    requires Buffers(c, all, s) && (a.SetAbsolute? || a.SetRelative?) && Enabled(c, s, a)
    ensures Buffers(c, all, Apply(c, s, a))
  {
    var s' := Apply(c, s, a);
    var abs := if a.SetAbsolute? then a.abs else Wrap64(s.pool.cur + a.rel);
    var r := if a.SetAbsolute? then SetAbs(c, s.pool, a.idx, abs, a.tmo).2
             else SetRel(c, s.pool, a.idx, a.rel, a.tmo).2;
    if r.Success? || r.NoEvent? {
      ResetBuffers(c, all, s, a.idx, abs, a.tmo, s');
    } else {
      assert s' == s;
    }
  }

  lemma TakeBuffers(c: Config, all: set<nat>, s: System, idx: nat, s': System)
    requires Buffers(c, all, s) && idx < c.num && s'.pool.Sized(c)
    requires s'.pool.bufs == s.pool.bufs[idx := None]
    requires s'.user == Got(s.user, s.pool.bufs[idx]) && s'.queued == s.queued
    ensures Buffers(c, all, s')
  {
    forall b | b in all
      ensures b in s'.user || InTimer(c, s'.pool, b) || InQueue(s', b)
    {
      if InTimer(c, s.pool, b) {
        var i :| 0 <= i < c.num && s.pool.bufs[i] == Some(b);
        assert s'.pool.bufs[i] == Some(b) || b in s'.user;
      } else if InQueue(s, b) {
        assert InQueue(s', b);
      }
    }
  }

  lemma ReceiveBuffers(c: Config, all: set<nat>, s: System, a: Action)
    requires Buffers(c, all, s) && a.Receive? && Enabled(c, s, a)
    ensures Buffers(c, all, Apply(c, s, a))
  {
    var s' := Apply(c, s, a);
    forall b | b in all
      ensures b in s'.user || InTimer(c, s'.pool, b) || InQueue(s', b)
    {
      if InQueue(s, b) {
        var k :| 0 <= k < |s.queued| && s.queued[k].buf == b;
        if k < a.k {
          assert s'.queued[k].buf == b;
        } else if k > a.k {
          assert s'.queued[k - 1].buf == b;
        }
      }
    }
  }

  /** A timeout posted by a tick carries the buffer its timer had, and the timer has it no more. */
  lemma PostedBuffer(c: Config, s: System, k: nat)
    requires Enabled(c, s, Tick) && |s.queued| <= k < |Apply(c, s, Tick).queued|
    ensures var s' := Apply(c, s, Tick);
            var i := s'.queued[k].timer;
            && i < c.num && s.pool.bufs[i] == Some(s'.queued[k].buf) && s'.pool.bufs[i].None?
            && (forall j :: |s.queued| <= j < k ==> s'.queued[j].timer < i)
  {
    var s', n := Apply(c, s, Tick), |s.queued|;
    var out := s'.queued[n..];
    assert forall j :: n <= j <= k ==> s'.queued[j] == out[j - n];
    var i := out[k - n].timer;
    assert i < c.num && i < s.pool.highWm && Due(s.pool, i, s.pool.cur) && s.pool.bufs[i] == Some(out[k - n].buf)
      && (forall j :: 0 <= j < k - n ==> out[j].timer < i) by {
      TickPosts(c, s);
    }
    assert s'.pool.bufs[i].None? by {
      TickDisarms(c, s);
    }
  }

  /** The buffers of the timeouts a tick posts are in no other timeout and in no timer. */
  lemma TickDisjoint(c: Config, all: set<nat>, s: System, k: nat)
    requires Buffers(c, all, s) && Enabled(c, s, Tick)
    requires |s.queued| <= k < |Apply(c, s, Tick).queued|
    ensures var s' := Apply(c, s, Tick);
            && s'.queued[k].buf in all - s.user
            && (forall j :: 0 <= j < k ==> s'.queued[j].buf != s'.queued[k].buf)
            && (forall i :: 0 <= i < c.num ==> s'.pool.bufs[i] != Some(s'.queued[k].buf))
  {
    var s', n := Apply(c, s, Tick), |s.queued|;
    PostedBuffer(c, s, k);
    var i := s'.queued[k].timer;
    assert forall r :: 0 <= r < c.num && r != i ==> s.pool.bufs[r] != s.pool.bufs[i];
    forall j | 0 <= j < k
      ensures s'.queued[j].buf != s'.queued[k].buf
    {
      if j < n {
        assert s'.queued[j] == s.queued[j];
      } else {
        PostedBuffer(c, s, j);
      }
    }
    assert forall r :: 0 <= r < c.num ==> s'.pool.bufs[r] == s.pool.bufs[r] || s'.pool.bufs[r].None? by {
      TickDisarms(c, s);
    }
  }

  lemma TickCovers(c: Config, all: set<nat>, s: System, b: nat)
    requires Buffers(c, all, s) && Enabled(c, s, Tick) && b in all
    ensures var s' := Apply(c, s, Tick); b in s'.user || InTimer(c, s'.pool, b) || InQueue(s', b)
  {
    var s', n := Apply(c, s, Tick), |s.queued|;
    if InTimer(c, s.pool, b) {
      var i :| 0 <= i < c.num && s.pool.bufs[i] == Some(b);
      if i < s.pool.highWm && Due(s.pool, i, s.pool.cur) {
        var o := TimeoutOf(c, Ticked(s.pool), i);
        assert o in s'.queued[n..] by { TickPosts(c, s); }
        var k :| 0 <= k < |s'.queued[n..]| && s'.queued[n..][k] == o;
        assert s'.queued[n + k].buf == b;
      } else {
        TickDisarms(c, s);
        assert s'.pool.bufs[i] == Some(b);
      }
    } else if InQueue(s, b) {
      var k :| 0 <= k < n && s.queued[k].buf == b;
      assert s'.queued[k] == s.queued[k];
    }
  }

  lemma TickBuffers(c: Config, all: set<nat>, s: System)
    requires Buffers(c, all, s) && Enabled(c, s, Tick)
    ensures Buffers(c, all, Apply(c, s, Tick))
  {
    var s', n := Apply(c, s, Tick), |s.queued|;
    TickDisarms(c, s);
    forall b | b in all
      ensures b in s'.user || InTimer(c, s'.pool, b) || InQueue(s', b)
    {
      TickCovers(c, all, s, b);
    }
    forall k | 0 <= k < |s'.queued|
      ensures s'.queued[k].buf in all - s.user
      ensures forall j :: 0 <= j < k ==> s'.queued[j].buf != s'.queued[k].buf
      ensures forall i :: 0 <= i < c.num ==> s'.pool.bufs[i] != Some(s'.queued[k].buf)
    {
      if k < n {
        assert forall j :: 0 <= j < n ==> s'.queued[j] == s.queued[j];
      } else {
        TickDisjoint(c, all, s, k);
      }
    }
  }

  lemma StepInv(c: Config, all: set<nat>, s: System, s': System)
    requires c.Valid() && Inv(c, all, s) && Next(c, s, s')
    ensures Inv(c, all, s')
  {
    var a :| Enabled(c, s, a) && s' == Apply(c, s, a);
    if a.Tick? { TickTimers(c, s); } else { OtherTimers(c, s, a); }
    if a.AllocTimer? {
      AllocFreeList(c, s, a);
    } else if a.FreeTimer? {
      FreeFreeList(c, s, a);
    } else {
      OtherFreeList(c, s, a);
    }
    StepBuffers(c, all, s, a);
  }

  lemma StepBuffers(c: Config, all: set<nat>, s: System, a: Action)
    requires c.Valid() && Inv(c, all, s) && Enabled(c, s, a)
    ensures Buffers(c, all, Apply(c, s, a))
  {
    var s' := Apply(c, s, a);
    match a
    case AllocTimer(_) =>
      if s.pool.numAlloc < c.num {
        assert s.pool.firstFree == FreeAt(s, 0) && s.pool.firstFree !in s.live;
        TakeBuffers(c, all, s, s.pool.firstFree, s');
      }
    case FreeTimer(idx) => TakeBuffers(c, all, s, idx, s');
    case CancelTimer(idx) => TakeBuffers(c, all, s, idx, s');
    case SetAbsolute(_, _, _) => SetBuffers(c, all, s, a);
    case SetRelative(_, _, _) => SetBuffers(c, all, s, a);
    case Tick => TickBuffers(c, all, s);
    case Receive(_) => ReceiveBuffers(c, all, s, a);
  }

  lemma {:induction false} RunInv(c: Config, all: set<nat>, run: seq<System>)
    requires c.Valid() && IsRun(c, all, run)
    ensures Inv(c, all, run[|run| - 1])
  {
    if |run| == 1 {
      InitInv(c, all, run[0]);
    } else {
      RunPrefix(c, all, run);
      var was := run[..|run| - 1];
      RunInv(c, all, was);
      StepInv(c, all, was[|was| - 1], run[|run| - 1]);
    }
  }

  lemma RunPrefix(c: Config, all: set<nat>, run: seq<System>)
    requires IsRun(c, all, run) && |run| > 1
    ensures IsRun(c, all, run[..|run| - 1]) && Next(c, run[..|run| - 1][|run| - 2], run[|run| - 1])
  {
    var was := run[..|run| - 1];
    forall i | 0 <= i < |was| - 1
      ensures Next(c, was[i], was[i + 1])
    {
      assert Next(c, run[i], run[i + 1]);
    }
    var k := |run| - 2;
    assert Next(c, run[k], run[k + 1]);
  }

  // ---------------------------------------------------------------- what users can rely on

  /** Allocation succeeds exactly below the limit, with an index that was not in use. */
  lemma AllocationFindsFree(c: Config, all: set<nat>, s: System, queue: nat)
    requires c.Valid() && Inv(c, all, s)
    ensures s.pool.numAlloc < c.num ==> s.pool.firstFree < c.num
    ensures |s.live| < c.num <==> Alloc(c, s.pool, queue).1.Some?
    ensures Alloc(c, s.pool, queue).1.Some? ==>
              Alloc(c, s.pool, queue).1.value < c.num && Alloc(c, s.pool, queue).1.value !in s.live
  {
    if s.pool.numAlloc < c.num {
      assert FreeAt(s, 0) < c.num && FreeAt(s, 0) !in s.live;
    }
  }

  /** No armed timer lies beyond the water mark: the bounded scan misses none. */
  lemma ScanBoundCovers(c: Config, all: set<nat>, s: System, i: nat)
    requires c.Valid() && Inv(c, all, s) && i < c.num && s.pool.bufs[i].Some?
    ensures i < s.pool.highWm
  {
  }

  /**
   A tick posts exactly the timers set for the current tick, each with that expiration: no
   timeout is early, late or lost.
   */
  lemma OnTime(c: Config, all: set<nat>, s: System, i: nat)
    requires c.Valid() && Inv(c, all, s) && Enabled(c, s, Tick) && i < c.num && s.pool.bufs[i].Some?
    ensures var s' := Apply(c, s, Tick);
            var mine := Timeout(s.pool.links[i], i, s.pool.bufs[i].value, s.pool.cur);
            if s.pool.ticks[i] == s.pool.cur
            then s'.pool.bufs[i].None? && mine in s'.queued[|s.queued|..]
            else s'.pool.bufs[i] == s.pool.bufs[i] && s'.pool.ticks[i] == s.pool.ticks[i] > s.pool.cur
    ensures forall k :: |s.queued| <= k < |Apply(c, s, Tick).queued| ==>
              Apply(c, s, Tick).queued[k].expiration == s.pool.cur
  {
    TickPosts(c, s);
    TickDisarms(c, s);
    ScanBoundCovers(c, all, s, i);
    var s' := Apply(c, s, Tick);
    forall k | |s.queued| <= k < |s'.queued|
      ensures s'.queued[k].expiration == s.pool.cur
    {
      PostedNow(c, all, s, k);
    }
  }

  /** A timeout is posted with the tick that was current. */
  lemma PostedNow(c: Config, all: set<nat>, s: System, k: nat)
    requires c.Valid() && Inv(c, all, s) && Enabled(c, s, Tick) && |s.queued| <= k < |Apply(c, s, Tick).queued|
    ensures Apply(c, s, Tick).queued[k].expiration == s.pool.cur
  {
    TickPosts(c, s);
    var o := Apply(c, s, Tick).queued[|s.queued|..][k - |s.queued|];
    assert o == Apply(c, s, Tick).queued[k];
    assert o.timer < c.num && Due(s.pool, o.timer, s.pool.cur) && o == TimeoutOf(c, Ticked(s.pool), o.timer);
  }

  /** Each buffer is in exactly one of: a user's hands, one timer, one queued timeout. */
  lemma BufferInOnePlace(c: Config, all: set<nat>, s: System, b: nat)
    requires c.Valid() && Inv(c, all, s) && b in all
    ensures b in s.user || InTimer(c, s.pool, b) || InQueue(s, b)
    ensures !(b in s.user && InTimer(c, s.pool, b)) && !(b in s.user && InQueue(s, b))
    ensures !(InTimer(c, s.pool, b) && InQueue(s, b))
    ensures forall i, j :: 0 <= i < c.num && 0 <= j < c.num && s.pool.bufs[i] == Some(b) == s.pool.bufs[j] ==> i == j
  {
  }
}
