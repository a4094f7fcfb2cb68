/**
 The timer pool: a free list of timer indices threaded through the entries, a high
 water mark that bounds the expiry scan, and one tick and buffer per timer.  Each
 operation is first a function on the contents of the pool.
 */
module Timer {
  import opened Options

  const U64: nat := 0x1_0000_0000_0000_0000
  /** Bit 63: or-ed into the tick of a timer that is not running. */
  const TMO_INACTIVE: nat := 0x8000_0000_0000_0000
  const TMO_UNUSED: nat := 0xFFFF_FFFF_FFFF_FFFF

  /** `minRel` and `maxRel`: the accepted distance of a timeout, in ticks. */
  datatype Config = Config(num: nat, minRel: nat, maxRel: nat) {
    predicate Valid() { minRel < TMO_INACTIVE && maxRel < TMO_INACTIVE }
  }

  /** `links`: the destination queue of a timer in use, the next free index of one that is not. */
  datatype Pool = Pool(ticks: seq<nat>, bufs: seq<Option<nat>>, links: seq<nat>,
                       cur: nat, highWm: nat, numAlloc: nat, firstFree: nat)
  {
    predicate Sized(c: Config) { |ticks| == |bufs| == |links| == c.num }
  }

  /** A timeout posted to a queue. */
  datatype Timeout = Timeout(queue: nat, timer: nat, buf: nat, expiration: nat)

  datatype SetResult = Success | TooEarly | TooLate | NoEvent

  function Wrap64(x: nat): nat { x % U64 }

  /** odp_timer_pool_new: every index is linked to the next. */
  function NewPool(c: Config): (p: Pool)
    ensures p.Sized(c)
  {
    Pool(seq(c.num, i => TMO_UNUSED), seq(c.num, i => None), seq(c.num, i => i + 1), 0, 0, 0, 0)
  }

  /** timer_alloc */
  function Alloc(c: Config, p: Pool, queue: nat): (Pool, Option<nat>)
    requires p.Sized(c) && (p.numAlloc < c.num ==> p.firstFree < c.num)
  {
    if p.numAlloc < c.num then
      var idx := p.firstFree;
      var n := p.numAlloc + 1;
      (p.(numAlloc := n, firstFree := p.links[idx], links := p.links[idx := queue],
          bufs := p.bufs[idx := None], ticks := p.ticks[idx := TMO_INACTIVE],
          highWm := if n > p.highWm then n else p.highWm), Some(idx))
    else (p, None)
  }

  /** timer_cancel: the timer gets a new state and gives up its buffer. */
  function Cancel(c: Config, p: Pool, idx: nat, state: nat): (Pool, Option<nat>)
    requires p.Sized(c) && idx < c.num
  {
    (p.(ticks := p.ticks[idx := state], bufs := p.bufs[idx := None]), p.bufs[idx])
  }

  /** timer_free */
  function Free(c: Config, p: Pool, idx: nat): (Pool, Option<nat>)
    requires p.Sized(c) && idx < c.num && p.numAlloc > 0
  {
    var (p', grabbed) := Cancel(c, p, idx, TMO_UNUSED);
    (p'.(links := p'.links[idx := p'.firstFree], firstFree := idx, numAlloc := p'.numAlloc - 1), grabbed)
  }

  /** timer_reset: a new buffer replaces the old one; without one, the old one is needed. */
  function Reset(c: Config, p: Pool, idx: nat, abs: nat, tmo: Option<nat>): (Pool, Option<nat>, bool)
    requires p.Sized(c) && idx < c.num
  {
    if tmo.None? then
      if p.bufs[idx].Some? then (p.(ticks := p.ticks[idx := abs]), None, true) else (p, None, false)
    else
      (p.(ticks := p.ticks[idx := abs], bufs := p.bufs[idx := tmo]), p.bufs[idx], true)
  }

  /** The reset without a buffer of the ARM build: swap the tick in, swap it back if inactive. */
  function ArmReset(c: Config, p: Pool, idx: nat, abs: nat): (Pool, Option<nat>, bool)
    requires p.Sized(c) && idx < c.num
  {
    var was := p.ticks[idx];
    var p' := p.(ticks := p.ticks[idx := abs]);
    if was >= TMO_INACTIVE then
      (if p'.ticks[idx] == abs then p'.(ticks := p'.ticks[idx := was]) else p', None, false)
    else (p', None, true)
  }

  /** odp_timer_set_abs */
  function SetAbs(c: Config, p: Pool, idx: nat, abs: nat, tmo: Option<nat>): (Pool, Option<nat>, SetResult)
    requires p.Sized(c) && idx < c.num
  {
    if abs < Wrap64(p.cur + c.minRel) then (p, tmo, TooEarly)
    else if abs > Wrap64(p.cur + c.maxRel) then (p, tmo, TooLate)
    else
      var (p', back, ok) := Reset(c, p, idx, abs, tmo);
      (p', back, if ok then Success else NoEvent)
  }

  /** odp_timer_set_rel */
  function SetRel(c: Config, p: Pool, idx: nat, rel: nat, tmo: Option<nat>): (Pool, Option<nat>, SetResult)
    requires p.Sized(c) && idx < c.num
  {
    if rel < c.minRel then (p, tmo, TooEarly)
    else if rel > c.maxRel then (p, tmo, TooLate)
    else
      var (p', back, ok) := Reset(c, p, idx, Wrap64(p.cur + rel), tmo);
      (p', back, if ok then Success else NoEvent)
  }

  /** timer_expire */
  function Expire(c: Config, p: Pool, idx: nat, tick: nat): (Pool, seq<Timeout>)
    requires p.Sized(c) && idx < c.num
  {
    var exp := p.ticks[idx];
    if exp <= tick && p.bufs[idx].Some? then
      (p.(bufs := p.bufs[idx := None], ticks := p.ticks[idx := exp % TMO_INACTIVE + TMO_INACTIVE]),
       [Timeout(p.links[idx], idx, p.bufs[idx].value, exp)])
    else (p, [])
  }

  /** odp_timer_pool_expire, over the first n timers. */
  function Scan(c: Config, p: Pool, tick: nat, n: nat): (r: (Pool, seq<Timeout>))
    requires p.Sized(c) && n <= c.num
    ensures r.0.Sized(c)
  {
    if n == 0 then (p, [])
    else
      var (p1, out1) := Scan(c, p, tick, n - 1);
      var (p2, out2) := Expire(c, p1, n - 1, tick);
      (p2, out1 + out2)
  }

  /** timer_notify */
  function Notify(c: Config, p: Pool): (Pool, seq<Timeout>)
    requires p.Sized(c) && p.highWm <= c.num
  {
    Scan(c, p.(cur := Wrap64(p.cur + 1)), p.cur, p.highWm)
  }

  /** odp_timeout_fresh: the tick of the timer, without bit 63, against the timeout. */
  predicate Fresh(p: Pool, o: Timeout)
    requires o.timer < |p.ticks|
  {
    o.expiration == p.ticks[o.timer] % TMO_INACTIVE
  }

  // ---------------------------------------------------------------- the expiry scan

  /** A timer whose timeout the scan at `tick` posts. */
  predicate Due(p: Pool, i: nat, tick: nat)
    requires i < |p.ticks| && i < |p.bufs|
  {
    p.bufs[i].Some? && p.ticks[i] <= tick
  }

  /** The due timers below n are disarmed, and nothing else has changed. */
  ghost predicate Disarmed(c: Config, p: Pool, tick: nat, n: nat, p': Pool)
    requires p.Sized(c)
  {
    && p' == p.(ticks := p'.ticks, bufs := p'.bufs) && p'.Sized(c)
    && forall i :: 0 <= i < c.num ==>
         if i < n && Due(p, i, tick)
         then p'.bufs[i].None? && p'.ticks[i] == p.ticks[i] % TMO_INACTIVE + TMO_INACTIVE
         else p'.bufs[i] == p.bufs[i] && p'.ticks[i] == p.ticks[i]
  }

  /** The timeout of timer i, as armed. */
  function TimeoutOf(c: Config, p: Pool, i: nat): Timeout
    requires p.Sized(c) && i < c.num && p.bufs[i].Some?
  {
    Timeout(p.links[i], i, p.bufs[i].value, p.ticks[i])
  }

  /** Exactly the due timers below n are posted, in index order, each once and as armed. */
  ghost predicate Posted(c: Config, p: Pool, tick: nat, n: nat, out: seq<Timeout>)
    requires p.Sized(c)
  {
    && (forall k :: 0 <= k < |out| ==>
          out[k].timer < n && out[k].timer < c.num && Due(p, out[k].timer, tick)
          && out[k] == TimeoutOf(c, p, out[k].timer))
    && (forall j, k :: 0 <= j < k < |out| ==> out[j].timer < out[k].timer)
    && (forall i :: 0 <= i < n && i < c.num && Due(p, i, tick) ==> TimeoutOf(c, p, i) in out)
  }

  /**
   A scan posts every due timer below its bound once, with its own buffer, queue and
   expiration, disarms it, and touches nothing else.
   */
  lemma ScanExact(c: Config, p: Pool, tick: nat, n: nat)
    requires p.Sized(c) && n <= c.num
    ensures Disarmed(c, p, tick, n, Scan(c, p, tick, n).0)
    ensures Posted(c, p, tick, n, Scan(c, p, tick, n).1)
  {
    ScanDisarms(c, p, tick, n);
    ScanPosts(c, p, tick, n);
  }

  lemma {:induction false} ScanDisarms(c: Config, p: Pool, tick: nat, n: nat)
    requires p.Sized(c) && n <= c.num
    ensures Disarmed(c, p, tick, n, Scan(c, p, tick, n).0)
  {
    if n == 0 {
    } else {
      ScanDisarms(c, p, tick, n - 1);
    }
  }

  lemma {:induction false} ScanPosts(c: Config, p: Pool, tick: nat, n: nat)
    requires p.Sized(c) && n <= c.num
    ensures Posted(c, p, tick, n, Scan(c, p, tick, n).1)
  {
    if n == 0 {
    } else {
      var out := Scan(c, p, tick, n - 1).1;
      var more := Scan(c, p, tick, n).1;
      assert Posted(c, p, tick, n - 1, out) by { ScanPosts(c, p, tick, n - 1); }
      assert more == WithDue(c, p, tick, n - 1, out) by { ScanStep(c, p, tick, n); }
      PostedMore(c, p, tick, n, out);
    }
  }

  /** The posted timeouts, and that of timer i if it is due. */
  ghost function WithDue(c: Config, p: Pool, tick: nat, i: nat, out: seq<Timeout>): seq<Timeout>
    requires p.Sized(c) && i < c.num
  {
    if Due(p, i, tick) then out + [TimeoutOf(c, p, i)] else out
  }

  lemma ScanStep(c: Config, p: Pool, tick: nat, n: nat)
    requires p.Sized(c) && 0 < n <= c.num
    ensures Scan(c, p, tick, n).1 == WithDue(c, p, tick, n - 1, Scan(c, p, tick, n - 1).1)
  {
    ScanDisarms(c, p, tick, n - 1);
  }

  /** One more timer is scanned. */
  lemma PostedMore(c: Config, p: Pool, tick: nat, n: nat, out: seq<Timeout>)
    requires p.Sized(c) && 0 < n <= c.num && Posted(c, p, tick, n - 1, out)
    ensures Posted(c, p, tick, n, WithDue(c, p, tick, n - 1, out))
  {
    var more := WithDue(c, p, tick, n - 1, out);
    forall i | 0 <= i < n && Due(p, i, tick)
      ensures TimeoutOf(c, p, i) in more
    {
      if i < n - 1 {
        assert TimeoutOf(c, p, i) in out;
      } else {
        assert more[|out|] == TimeoutOf(c, p, n - 1);
      }
    }
  }

  /** Swapping the tick back gives the same whole step as looking at the buffer first. */
  lemma ArmResetSame(c: Config, p: Pool, idx: nat, abs: nat)
    requires p.Sized(c) && idx < c.num
    ensures ArmReset(c, p, idx, abs) == Reset(c, p, idx, abs, None) <==>
            (p.bufs[idx].Some? <==> p.ticks[idx] < TMO_INACTIVE)
  {
    var r := ArmReset(c, p, idx, abs);
    if p.ticks[idx] >= TMO_INACTIVE {
      assert r.0.ticks == p.ticks;
      assert r.0 == p;
    }
  }

  // ---------------------------------------------------------------- freshness

  /** A timeout is fresh right after the scan that posts it. */
  lemma FreshWhenPosted(c: Config, p: Pool, tick: nat, n: nat, k: nat)
    requires p.Sized(c) && n <= c.num && k < |Scan(c, p, tick, n).1| && tick < TMO_INACTIVE
    ensures Scan(c, p, tick, n).1[k].timer < c.num
    ensures Fresh(Scan(c, p, tick, n).0, Scan(c, p, tick, n).1[k])
  {
    ScanExact(c, p, tick, n);
  }

  /** A timer set for tick 0, expired. */
  lemma ExpiredAtZero(c: Config)
    requires c == Config(1, 0, 5)
    ensures Notify(c, SetAbs(c, Alloc(c, NewPool(c), 7).0, 0, 0, Some(3)).0)
         == (Pool([TMO_INACTIVE], [None], [7], 1, 1, 1, 1), [Timeout(7, 0, 3, 0)])
  {
    var p := SetAbs(c, Alloc(c, NewPool(c), 7).0, 0, 0, Some(3)).0;
    assert p == Pool([0], [Some(3)], [7], 0, 1, 1, 1);
    var p' := p.(cur := 1);
    assert Scan(c, p', 0, 0) == (p', []);
    assert p'.ticks[0 := TMO_INACTIVE] == [TMO_INACTIVE] && p'.bufs[0 := None] == [None];
    assert Expire(c, p', 0, 0) == (Pool([TMO_INACTIVE], [None], [7], 1, 1, 1, 1), [Timeout(7, 0, 3, 0)]);
    assert Scan(c, p', 0, 1) == (Expire(c, p', 0, 0).0, [] + Expire(c, p', 0, 0).1);
    assert Wrap64(p.cur + 1) == 1 && Notify(c, p) == Scan(c, p', 0, 1);
    assert Notify(c, p).1 == [Timeout(7, 0, 3, 0)];
  }

  /** The unnoticed cancel: set for tick 0, expired, cancelled, and still fresh. */
  lemma CancelledLooksFresh(c: Config)
    requires c == Config(1, 0, 5)
    ensures var (p, out) := Notify(c, SetAbs(c, Alloc(c, NewPool(c), 7).0, 0, 0, Some(3)).0);
            && p.Sized(c) && out == [Timeout(7, 0, 3, 0)]
            && Cancel(c, p, 0, TMO_INACTIVE).1.None? && Fresh(Cancel(c, p, 0, TMO_INACTIVE).0, out[0])
  {
    ExpiredAtZero(c);
  }

  /** The unnoticed reuse: set for tick 0, expired, freed, given out to queue 9, and fresh again. */
  lemma ReusedLooksFresh(c: Config)
    requires c == Config(1, 0, 5)
    ensures var (p, out) := Notify(c, SetAbs(c, Alloc(c, NewPool(c), 7).0, 0, 0, Some(3)).0);
            && p.Sized(c) && p.numAlloc == 1 && out == [Timeout(7, 0, 3, 0)]
            && !Fresh(Free(c, p, 0).0, out[0])
            && Alloc(c, Free(c, p, 0).0, 9).1 == Some(0) && Fresh(Alloc(c, Free(c, p, 0).0, 9).0, out[0])
  {
    ExpiredAtZero(c);
  }
}
