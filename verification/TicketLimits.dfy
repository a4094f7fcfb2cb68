/**
 What the ticket lock needs, exactly: no more threads than there are ticket words, and no
 trylock that sleeps between its loads and its swap while 2^32 tickets are drawn.
 */
module TicketLimits {
  import opened Sequences
  import opened Words
  import opened TicketLock

  /** No two threads are in the lock. */
  ghost predicate Exclusive(s: State)
  {
    forall t, u :: 0 <= t < u < |s.pcs| ==> !(InLock(s.pcs[t]) && InLock(s.pcs[u]))
  }

  lemma Extend(gap: nat, run: seq<State>, t: nat, a: Action) returns (longer: seq<State>)
    requires IsRun(gap, run) && t < |Last(run).pcs| && Enabled(Last(run), t, a) && Timely(gap, Last(run), t, a)
    ensures IsRun(gap, longer) && longer[0] == run[0] && Last(longer) == Apply(Last(run), t, a)
  {
    var s := Apply(Last(run), t, a);
    assert Next(gap, Last(run), s);
    longer := run + [s];
    forall i | 0 <= i < |longer| - 1
      ensures Next(gap, longer[i], longer[i + 1])
    {
      if i < |run| - 1 {
        assert longer[i] == run[i] && longer[i + 1] == run[i + 1];
      }
    }
  }

  /** Longer gaps allow more runs. */
  lemma Widen(gap: nat, wide: nat, run: seq<State>)
    requires IsRun(gap, run) && gap <= wide
    ensures IsRun(wide, run)
  {
    forall i | 0 <= i < |run| - 1
      ensures Next(wide, run[i], run[i + 1])
    {
      var s, s' := run[i], run[i + 1];
      assert Next(gap, s, s');
      var t: nat, a :| t < |s.pcs| && Enabled(s, t, a) && Timely(gap, s, t, a) && s' == Apply(s, t, a);
      assert Timely(wide, s, t, a);
    }
  }

  lemma {:induction false} SameThreads(gap: nat, run: seq<State>)
    requires IsRun(gap, run)
    ensures |Last(run).pcs| == |run[0].pcs|
  {
    if |run| == 1 {
    } else {
      assert IsRun(gap, run[..|run| - 1]);
      SameThreads(gap, run[..|run| - 1]);
      assert Next(gap, run[|run| - 2], run[|run| - 1]);
    }
  }

  function Start(n: nat): (s: State)
    ensures Init(s) && |s.pcs| == n
  {
    State(0, 0, 0, 0, seq(n, i => Idle), [], [])
  }

  // ---------------------------------------------------------------- a lap

  /** Thread 0 is parked in `p`, thread 1 is idle, m tickets have been drawn and are done. */
  ghost predicate Calm(s: State, p: Pc, m: nat)
  {
    s.next == s.cur == Wrap(m) && s.nx == s.cu == m && |s.pcs| >= 2 && s.pcs[0] == p && s.pcs[1] == Idle
  }

  /** Thread 1 locks and unlocks once. */
  lemma LockOnce(gap: nat, run: seq<State>, p: Pc, m: nat) returns (longer: seq<State>)
    requires IsRun(gap, run) && Calm(Last(run), p, m)
    ensures IsRun(gap, longer) && longer[0] == run[0] && Calm(Last(longer), p, m + 1)
  {
    WrapPlus(m, 1);
    longer := Extend(gap, run, 1, Draw);
    longer := Extend(gap, longer, 1, See);
    longer := Extend(gap, longer, 1, LoadOwn);
    longer := Extend(gap, longer, 1, Store);
  }

  lemma {:induction false} LockOften(gap: nat, run: seq<State>, p: Pc, m: nat) returns (longer: seq<State>)
    requires IsRun(gap, run) && Calm(Last(run), p, 0)
    ensures IsRun(gap, longer) && longer[0] == run[0] && Calm(Last(longer), p, m)
  {
    if m == 0 {
      longer := run;
    } else {
      longer := LockOften(gap, run, p, m - 1);
      longer := LockOnce(gap, longer, p, m - 1);
    }
  }

  /**
   Thread 0 has loaded both counters; thread 1 draws 2^32 tickets, holds the last of them, and
   the swap finds the word it loaded.
   */
  lemma LapBreaks(n: nat) returns (run: seq<State>)
    requires n >= 2
    ensures IsRun(U32, run) && |run[0].pcs| == n && !Exclusive(Last(run))
  {
    run := [Start(n)];
    run := Extend(U32, run, 0, LoadNext);
    run := Extend(U32, run, 0, LoadCur);
    var m := U32 - 1;
    run := LockOften(U32, run, TryBoth(0, 0, 0, 0), m);
    WrapPlus(m, 1);
    run := Extend(U32, run, 1, Draw);
    run := Extend(U32, run, 1, See);
    run := Extend(U32, run, 0, Swap);
    assert InLock(Last(run).pcs[0]) && InLock(Last(run).pcs[1]);
  }

  // ---------------------------------------------------------------- a crowd

  /** The first m threads have drawn a ticket each. */
  lemma {:induction false} DrawAll(n: nat, m: nat) returns (run: seq<State>)
    requires m <= n
    ensures IsRun(0, run) && run[0] == Start(n) && |Last(run).pcs| == n
    ensures Last(run).nx == m && Last(run).next == Wrap(m) && Last(run).cur == 0
    ensures forall t :: 0 <= t < n ==> Last(run).pcs[t] == if t < m then Waiting(Wrap(t), t) else Idle
  {
    if m == 0 {
      run := [Start(n)];
    } else {
      run := DrawAll(n, m - 1);
      WrapPlus(m - 1, 1);
      run := Extend(0, run, m - 1, Draw);
    }
  }

  /** With more threads than words, two of them wait for the same word. */
  lemma CrowdBreaks(n: nat) returns (run: seq<State>)
    requires n > U32
    ensures IsRun(0, run) && |run[0].pcs| == n && !Exclusive(Last(run))
  {
    run := DrawAll(n, U32 + 1);
    run := Extend(0, run, 0, See);
    run := Extend(0, run, U32, See);
    assert InLock(Last(run).pcs[0]) && InLock(Last(run).pcs[U32]);
  }

  /**
   For every number of threads and every bound on the gap: the lock is exclusive in every run
   if and only if there is one thread at most, or there are at most 2^32 of them and no swap
   succeeds after 2^32 tickets or more.
   */
  lemma ExclusiveExactly(n: nat, gap: nat)
    ensures n <= 1 || (n <= U32 && gap < U32) <==>
            forall run: seq<State> :: IsRun(gap, run) && |run[0].pcs| == n ==> Exclusive(Last(run))
  {
    if n <= 1 || (n <= U32 && gap < U32) {
      forall run: seq<State> | IsRun(gap, run) && |run[0].pcs| == n
        ensures Exclusive(Last(run))
      {
        SameThreads(gap, run);
        if n > 1 {
          forall t, u | 0 <= t < u < |Last(run).pcs|
            ensures !(InLock(Last(run).pcs[t]) && InLock(Last(run).pcs[u]))
          {
            if InLock(Last(run).pcs[t]) && InLock(Last(run).pcs[u]) {
              MutualExclusion(gap, run, t, u);
            }
          }
        }
      }
    } else if n > U32 {
      var bad := CrowdBreaks(n);
      Widen(0, gap, bad);
    } else {
      var bad := LapBreaks(n);
      Widen(U32, gap, bad);
    }
  }
}
