/**
 The timer pool as the source keeps it: arrays of ticks, buffers and links that the
 operations update in place, each with the effect the specification gives it.
 */
module TimerPool {
  import opened Options
  import opened Timer
  import R = TimerRuns

  class TimerPool {
    const c: Config
    const ticks: array<nat>
    const bufs: array<Option<nat>>
    const links: array<nat>
    var cur: nat
    var highWm: nat
    var numAlloc: nat
    var firstFree: nat

    /** The timers in use, and the freed ones, last freed first. */
    ghost var live: set<nat>
    ghost var recycled: seq<nat>

    ghost predicate Sized()
    {
      ticks.Length == bufs.Length == links.Length == c.num && ticks != links
    }

    ghost function View(): (p: Pool)
      requires Sized()
      reads this, ticks, bufs, links
      ensures p.Sized(c)
    {
      Pool(ticks[..], bufs[..], links[..], cur, highWm, numAlloc, firstFree)
    }

    /** The free list is in order. */
    ghost predicate Valid()
      reads this, ticks, bufs, links
    {
      Sized() && R.FreeList(c, System())
    }

    ghost function System(): R.System
      requires Sized()
      reads this, ticks, bufs, links
    {
      R.System(View(), live, recycled, {}, [])
    }

    /** odp_timer_pool_new */
    constructor (c: Config)
      ensures Valid() && this.c == c && View() == NewPool(c) && live == {}
    {
      var t, b, l := new nat[c.num], new Option<nat>[c.num], new nat[c.num];
      for i := 0 to c.num
        invariant forall j :: 0 <= j < i ==> l[j] == j + 1 && t[j] == TMO_UNUSED && b[j] == None
      {
        l[i] := i + 1;
        t[i] := TMO_UNUSED;
        b[i] := None;
      }
      this.c, ticks, bufs, links := c, t, b, l;
      cur, highWm, numAlloc, firstFree := 0, 0, 0, 0;
      live, recycled := {}, [];
      new;
      assert ticks[..] == NewPool(c).ticks && bufs[..] == NewPool(c).bufs && links[..] == NewPool(c).links;
    }

    /** timer_alloc; the caller gets the index, or nothing when all timers are in use. */
    method TimerAlloc(queue: nat) returns (idx: Option<nat>)
      requires Valid()
      modifies this, ticks, bufs, links
      ensures Valid() && (View(), idx) == Alloc(c, old(View()), queue)
      ensures idx.Some? <==> |old(live)| < c.num
      ensures idx.Some? ==> idx.value !in old(live) && live == old(live) + {idx.value}
      ensures idx.None? ==> live == old(live)
    {
      ghost var s := System();
      if numAlloc < c.num {
        assert firstFree == R.FreeAt(s, 0) && firstFree !in live;
        R.AllocFreeList(c, s, R.AllocTimer(queue));
        numAlloc := numAlloc + 1;
        var i := firstFree;
        firstFree := links[i];
        links[i] := queue;
        bufs[i] := None;
        ticks[i] := TMO_INACTIVE;
        if numAlloc > highWm { highWm := numAlloc; }
        idx := Some(i);
        live, recycled := live + {i}, if recycled == [] then [] else recycled[1..];
        assert System() == R.Apply(c, s, R.AllocTimer(queue));
      } else {
        idx := None;
      }
    }

    method TimerCancel(idx: nat, state: nat) returns (grabbed: Option<nat>)
      requires Valid() && idx < c.num
      modifies ticks, bufs
      ensures Valid() && (View(), grabbed) == Cancel(c, old(View()), idx, state)
    {
      ghost var s := System();
      ticks[idx] := state;
      grabbed := bufs[idx];
      bufs[idx] := None;
      R.FreeListFrame(c, s, System());
    }

    method TimerFree(idx: nat) returns (grabbed: Option<nat>)
      requires Valid() && idx in live
      modifies this, ticks, bufs, links
      ensures old(numAlloc) > 0 && idx < c.num
      ensures Valid() && (View(), grabbed) == Free(c, old(View()), idx) && live == old(live) - {idx}
    {
      ghost var s := System();
      assert s.pool.numAlloc > 0 && idx < c.num by { assert live != {}; }
      ghost var s1 := R.Apply(c, s, R.FreeTimer(idx));
      R.FreeFreeList(c, s, R.FreeTimer(idx));
      grabbed := TimerCancel(idx, TMO_UNUSED);
      links[idx] := firstFree;
      firstFree := idx;
      numAlloc := numAlloc - 1;
      live, recycled := live - {idx}, [idx] + recycled;
      assert View() == s1.pool;
      R.FreeListFrame(c, s1, System());
    }

    /** timer_reset, with per-timer locks */
    method TimerReset(idx: nat, abs: nat, tmo: Option<nat>) returns (back: Option<nat>, ok: bool)
      requires Valid() && idx < c.num
      modifies ticks, bufs
      ensures Valid() && (View(), back, ok) == Reset(c, old(View()), idx, abs, tmo)
    {
      ghost var s := System();
      back, ok := None, true;
      if tmo.None? {
        if bufs[idx].Some? {
          ticks[idx] := abs;
        } else {
          ok := false;
        }
      } else {
        back := bufs[idx];
        bufs[idx] := tmo;
        ticks[idx] := abs;
      }
      R.FreeListFrame(c, s, System());
    }

    method TimerSetAbs(idx: nat, abs: nat, tmo: Option<nat>) returns (back: Option<nat>, r: SetResult)
      requires Valid() && idx < c.num
      modifies ticks, bufs
      ensures Valid() && (View(), back, r) == SetAbs(c, old(View()), idx, abs, tmo)
    {
      if abs < Wrap64(cur + c.minRel) { return tmo, TooEarly; }
      if abs > Wrap64(cur + c.maxRel) { return tmo, TooLate; }
      var ok;
      back, ok := TimerReset(idx, abs, tmo);
      r := if ok then Success else NoEvent;
    }

    method TimerSetRel(idx: nat, rel: nat, tmo: Option<nat>) returns (back: Option<nat>, r: SetResult)
      requires Valid() && idx < c.num
      modifies ticks, bufs
      ensures Valid() && (View(), back, r) == SetRel(c, old(View()), idx, rel, tmo)
    {
      var abs := Wrap64(cur + rel);
      if rel < c.minRel { return tmo, TooEarly; }
      if rel > c.maxRel { return tmo, TooLate; }
      var ok;
      back, ok := TimerReset(idx, abs, tmo);
      r := if ok then Success else NoEvent;
    }

    method TimerExpire(idx: nat, tick: nat) returns (out: seq<Timeout>)
      requires Valid() && idx < c.num
      modifies ticks, bufs
      ensures Valid() && (View(), out) == Expire(c, old(View()), idx, tick)
    {
      ghost var s := System();
      out := [];
      var exp := ticks[idx];
      if exp <= tick && bufs[idx].Some? {
        out := [Timeout(links[idx], idx, bufs[idx].value, exp)];
        bufs[idx] := None;
        ticks[idx] := exp % TMO_INACTIVE + TMO_INACTIVE;
      }
      R.FreeListFrame(c, s, System());
    }

    /** odp_timer_pool_expire: an unlocked look at each tick first, then the expiry proper. */
    method PoolExpire(tick: nat) returns (nexp: nat, out: seq<Timeout>)
      requires Valid()
      modifies ticks, bufs
      ensures Valid() && (View(), out) == Scan(c, old(View()), tick, highWm)
      ensures nexp == |out|
    {
      out, nexp := [], 0;
      var i := 0;
      while i < highWm
        invariant 0 <= i <= highWm && Valid() && nexp == |out|
        invariant (View(), out) == Scan(c, old(View()), tick, i)
      {
        var exp := ticks[i];
        i := i + 1;
        if exp <= tick {
          var posted := TimerExpire(i - 1, tick);
          out := out + posted;
          nexp := nexp + |posted|;
        } else {
          assert Expire(c, View(), i - 1, tick) == (View(), []) && out == out + [];
        }
      }
    }

    /** timer_notify */
    method TimerNotify() returns (out: seq<Timeout>)
      requires Valid()
      modifies this`cur, ticks, bufs
      ensures Valid() && (View(), out) == Notify(c, old(View()))
    {
      ghost var s := System();
      var prev := cur;
      cur := Wrap64(cur + 1);
      R.FreeListFrame(c, s, System());
      var n;
      n, out := PoolExpire(prev);
    }
  }
}
