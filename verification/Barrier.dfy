/**
 The reusable barrier as a system of atomic steps: n threads enter and leave it any
 number of times, and the counter cycles through the two halves of 0..2n.
 */
module Barrier {
  import opened Sequences
  import opened Words
  import opened ThreadSets

  datatype Pc =
    | Outside
      /** Spinning until the counter crosses to the other half. */
    | Spinning(wasLess: bool)
      /** Drew the last value of the cycle: about to subtract 2n. */
    | Wrapping

  /** `entered`: how often the thread has entered the barrier (history). */
  datatype Thread = Thread(pc: Pc, entered: nat)

  /** `gen`: the number of times all threads have entered (history). */
  datatype State = State(bar: u32, threads: seq<Thread>, gen: nat)

  datatype Action = Enter | Subtract | Look

  /** odp_barrier_init is given the number of threads. */
  ghost predicate Init(n: nat, s: State)
  {
    && |s.threads| == n && s.bar == 0 && s.gen == 0
    && forall t :: 0 <= t < n ==> s.threads[t] == Thread(Outside, 0)
  }

  /** The threads that have entered the generation in progress. */
  ghost function Inside(s: State): set<nat>
  {
    set t | 0 <= t < |s.threads| && s.threads[t].entered == s.gen + 1
  }

  /** Every thread has entered the generation in progress. */
  ghost predicate AllEntered(s: State)
  {
    forall t :: 0 <= t < |s.threads| ==> s.threads[t].entered > s.gen
  }

  /** Even generations use the lower half of the cycle. */
  predicate Lower(gen: nat) { gen % 2 == 0 }

  function Base(n: nat, gen: nat): nat { if Lower(gen) then 0 else n }

  lemma HalvesAlternate(gen: nat)
    ensures Lower(gen + 1) <==> !Lower(gen)
  {
  }

  predicate Enabled(s: State, t: nat, a: Action)
    requires t < |s.threads|
  {
    match a
    case Enter => s.threads[t].pc.Outside?
    case Subtract => s.threads[t].pc.Wrapping?
    case Look => s.threads[t].pc.Spinning?
  }

  ghost function Apply(n: nat, s: State, t: nat, a: Action): State
    requires t < |s.threads| && Enabled(s, t, a)
  {
    var th := s.threads[t];
    match a
    case Enter =>
      var count := s.bar;
      var pc := if count == Wrap(2 * n - 1) then Wrapping else Spinning(count < n);
      var s1 := s.(bar := Wrap(s.bar + 1), threads := s.threads[t := Thread(pc, th.entered + 1)]);
      if AllEntered(s1) then s1.(gen := s.gen + 1) else s1
    case Subtract =>
      s.(bar := Wrap(s.bar - 2 * n), threads := s.threads[t := th.(pc := Outside)])
    case Look =>
      if (s.bar < n) == th.pc.wasLess then s else s.(threads := s.threads[t := th.(pc := Outside)])
  }

  ghost predicate Next(n: nat, s: State, s': State)
  {
    exists t: nat, a :: t < |s.threads| && Enabled(s, t, a) && s' == Apply(n, s, t, a)
  }

  ghost predicate IsRun(n: nat, run: seq<State>)
  {
    && |run| > 0 && Init(n, run[0])
    && forall i :: 0 <= i < |run| - 1 ==> Next(n, run[i], run[i + 1])
  }

  // ---------------------------------------------------------------- the invariant

  ghost predicate WrapPending(s: State)
  {
    exists t :: 0 <= t < |s.threads| && s.threads[t].pc.Wrapping?
  }

  /** A thread has entered the generation in progress, or only the ones before it. */
  ghost predicate ThreadOk(n: nat, s: State, t: nat)
    requires t < |s.threads|
  {
    var th := s.threads[t];
    && (th.entered == s.gen || th.entered == s.gen + 1)
    && (th.pc.Outside? ==> th.entered == s.gen)
    && (th.pc.Spinning? ==> th.entered > 0 && (th.pc.wasLess <==> Lower(th.entered - 1)))
    && (th.pc.Wrapping? ==> th.entered == s.gen && Lower(s.gen) && s.bar == 2 * n)
  }

  ghost predicate Inv(n: nat, s: State)
  {
    && |s.threads| == n
    && (forall t :: 0 <= t < n ==> ThreadOk(n, s, t))
    && (forall t, u :: 0 <= t < u < n ==> !(s.threads[t].pc.Wrapping? && s.threads[u].pc.Wrapping?))
    && |Inside(s)| < n
    && if WrapPending(s)
       then s.bar == 2 * n && Inside(s) == {} && forall t :: 0 <= t < n ==> !s.threads[t].pc.Outside?
       else s.bar == Base(n, s.gen) + |Inside(s)|
  }

  lemma InitInv(n: nat, s: State)
    requires 1 <= n && Init(n, s)
    ensures Inv(n, s)
  {
    assert Inside(s) == {};
  }

  /** Entering is one more thread in, and the generation is complete with the n-th. */
  lemma EnterCounts(n: nat, s: State, t: nat, s1: State)
    requires 1 <= n && Inv(n, s) && t < n && s.threads[t].entered == s.gen && s1.gen == s.gen
    requires |s1.threads| == n && s1.threads == s.threads[t := s1.threads[t]] && s1.threads[t].entered == s.gen + 1
    ensures Inside(s1) == Inside(s) + {t} && |Inside(s1)| == |Inside(s)| + 1
    ensures AllEntered(s1) <==> |Inside(s)| + 1 == n
    ensures AllEntered(s1) ==> Inside(s1.(gen := s.gen + 1)) == {}
  {
    var more := Inside(s) + {t};
    assert t !in Inside(s);
    assert Inside(s1) == more;
    if |more| < n {
      var u := Missing(more, n);
      assert ThreadOk(n, s, u);
      assert s1.threads[u].entered == s.gen;
    } else {
      forall u | 0 <= u < n
        ensures s1.threads[u].entered == s.gen + 1
      {
        if u != t { Full(n, s, t, u); }
      }
    }
  }

  /** What entering does to the counter. */
  lemma EnterCounter(n: nat, s: State, t: nat)
    requires 1 <= n < 0x8000_0000 && Inv(n, s) && t < n && Enabled(s, t, Enter) && !WrapPending(s)
    ensures var s' := Apply(n, s, t, Enter);
            && |Inside(s')| < n
            && if !Lower(s.gen) && |Inside(s)| + 1 == n then s'.bar == 2 * n && Inside(s') == {}
               else s'.bar == Base(n, s'.gen) + |Inside(s')|
  {
    EnterEffect(n, s, t);
    EnterCounts(n, s, t, Apply(n, s, t, Enter).(gen := s.gen));
    HalvesAlternate(s.gen);
  }

  lemma EnterStep(n: nat, s: State, t: nat)
    requires 1 <= n < 0x8000_0000 && Inv(n, s) && t < n && Enabled(s, t, Enter)
    ensures Inv(n, Apply(n, s, t, Enter))
  {
    assert ThreadOk(n, s, t);
    assert !WrapPending(s);
    var s' := Apply(n, s, t, Enter);
    EnterCounter(n, s, t);
    EnterThreads(n, s, t);
    assert WrapPending(s') <==> s'.threads[t].pc.Wrapping?;
  }

  lemma EnterThreads(n: nat, s: State, t: nat)
    requires 1 <= n < 0x8000_0000 && Inv(n, s) && t < n && Enabled(s, t, Enter) && !WrapPending(s)
    ensures var s' := Apply(n, s, t, Enter);
            forall u :: 0 <= u < n ==> ThreadOk(n, s', u) && (u != t ==> !s'.threads[u].pc.Wrapping?)
    ensures Apply(n, s, t, Enter).threads[t].pc.Wrapping? <==> !Lower(s.gen) && |Inside(s)| + 1 == n
    ensures Apply(n, s, t, Enter).threads[t].pc.Wrapping? ==>
              forall u :: 0 <= u < n ==> !Apply(n, s, t, Enter).threads[u].pc.Outside?
  {
    var s' := Apply(n, s, t, Enter);
    EnterEffect(n, s, t);
    HalvesAlternate(s.gen);
    forall u | 0 <= u < n
      ensures ThreadOk(n, s', u) && (u != t ==> !s'.threads[u].pc.Wrapping?)
      ensures s'.gen == s.gen + 1 ==> !s'.threads[u].pc.Outside?
    {
      assert ThreadOk(n, s, u);
      if s'.gen == s.gen + 1 && u != t { Full(n, s, t, u); }
    }
  }

  /** Entering, with the wrapping arithmetic worked out. */
  lemma EnterEffect(n: nat, s: State, t: nat)
    requires 1 <= n < 0x8000_0000 && Inv(n, s) && t < n && Enabled(s, t, Enter) && !WrapPending(s)
    ensures t !in Inside(s) && s.threads[t].entered == s.gen
    ensures var last, full := s.bar == 2 * n - 1, |Inside(s)| + 1 == n;
            Apply(n, s, t, Enter) ==
              State(s.bar + 1, s.threads[t := Thread(if last then Wrapping else Spinning(s.bar < n), s.gen + 1)],
                    if full then s.gen + 1 else s.gen)
  {
    assert ThreadOk(n, s, t);
    var pc := if s.bar == 2 * n - 1 then Wrapping else Spinning(s.bar < n);
    var s1 := State(s.bar + 1, s.threads[t := Thread(pc, s.gen + 1)], s.gen);
    EnterCounts(n, s, t, s1);
    ApplyEnter(n, s, t, s1);
  }

  lemma ApplyEnter(n: nat, s: State, t: nat, s1: State)
    requires 1 <= n < 0x8000_0000 && |s.threads| == n && t < n && s.threads[t].pc.Outside? && s.bar <= 2 * n - 1
    requires s1 == State(s.bar + 1, s.threads[t := Thread(if s.bar == 2 * n - 1 then Wrapping else Spinning(s.bar < n),
                                                         s.threads[t].entered + 1)], s.gen)
    ensures Apply(n, s, t, Enter) == if AllEntered(s1) then s1.(gen := s.gen + 1) else s1
  {
    NoWrap(s.bar + 1);
    NoWrap(2 * n - 1);
  }

  lemma NoWrap(x: nat)
    requires x < U32
    ensures Wrap(x) == x
  {
  }

  /** When only t is missing, everyone else is inside. */
  lemma Full(n: nat, s: State, t: nat, u: nat)
    requires |s.threads| == n && t < n && u < n && u != t && t !in Inside(s) && |Inside(s)| + 1 == n
    ensures u in Inside(s)
  {
    if u !in Inside(s) {
      AtMost(Inside(s) + {t} + {u}, n);
    }
  }

  lemma SubtractStep(n: nat, s: State, t: nat)
    requires 1 <= n < 0x8000_0000 && Inv(n, s) && t < n && Enabled(s, t, Subtract)
    ensures Inv(n, Apply(n, s, t, Subtract))
  {
    var s' := Apply(n, s, t, Subtract);
    assert ThreadOk(n, s, t);
    assert WrapPending(s) && !WrapPending(s');
    assert Inside(s') == {} by {
      assert forall u :: u in Inside(s') ==> u in Inside(s);
    }
    forall u | 0 <= u < n
      ensures ThreadOk(n, s', u)
    {
      assert ThreadOk(n, s, u);
    }
  }

  /** A spinning thread leaves exactly if its generation is complete and the counter has wrapped. */
  lemma LeavesExactly(n: nat, s: State, t: nat)
    requires 1 <= n && Inv(n, s) && t < n && Enabled(s, t, Look)
    ensures Apply(n, s, t, Look).threads[t].pc.Outside? <==> s.threads[t].entered <= s.gen && !WrapPending(s)
  {
    var th := s.threads[t];
    assert ThreadOk(n, s, t);
    if !WrapPending(s) {
      assert s.bar < n <==> Lower(s.gen);
      if th.entered == s.gen { HalvesAlternate(s.gen - 1); }
    } else {
      assert t !in Inside(s);
      HalvesAlternate(s.gen - 1);
      var u :| 0 <= u < n && s.threads[u].pc.Wrapping?;
      assert ThreadOk(n, s, u);
    }
  }

  lemma LookStep(n: nat, s: State, t: nat)
    requires 1 <= n < 0x8000_0000 && Inv(n, s) && t < n && Enabled(s, t, Look)
    ensures Inv(n, Apply(n, s, t, Look))
  {
    var s' := Apply(n, s, t, Look);
    assert ThreadOk(n, s, t);
    LeavesExactly(n, s, t);
    assert Inside(s') == Inside(s);
    assert WrapPending(s') <==> WrapPending(s);
    forall u | 0 <= u < n
      ensures ThreadOk(n, s', u)
    {
      assert ThreadOk(n, s, u);
    }
  }

  lemma {:induction false} RunInv(n: nat, run: seq<State>)
    requires 1 <= n < 0x8000_0000 && IsRun(n, run)
    ensures Inv(n, run[|run| - 1])
  {
    if |run| == 1 {
      InitInv(n, run[0]);
    } else {
      assert IsRun(n, run[..|run| - 1]);
      RunInv(n, run[..|run| - 1]);
      var s := run[|run| - 2];
      var t: nat, a :| t < |s.threads| && Enabled(s, t, a) && run[|run| - 1] == Apply(n, s, t, a);
      match a
      case Enter => EnterStep(n, s, t);
      case Subtract => SubtractStep(n, s, t);
      case Look => LookStep(n, s, t);
    }
  }

  // ---------------------------------------------------------------- what the barrier promises

  /** No thread leaves a generation before every thread has entered it. */
  lemma NoneLeavesEarly(n: nat, s: State, t: nat, a: Action, u: nat)
    requires 1 <= n < 0x8000_0000 && Inv(n, s) && t < n && u < n && Enabled(s, t, a)
    requires !s.threads[t].pc.Outside? && Apply(n, s, t, a).threads[t].pc.Outside?
    ensures s.threads[u].entered >= s.threads[t].entered
  {
    assert ThreadOk(n, s, t) && ThreadOk(n, s, u);
    if a.Look? { LeavesExactly(n, s, t); }
  }

  /**
   A straggler cannot miss its release: however often the others come back, its next look
   at the counter lets it go, and no further generation completes without it.
   */
  lemma StragglerIsReleased(n: nat, s: State, t: nat, u: nat)
    requires 1 <= n < 0x8000_0000 && Inv(n, s) && t < n && u < n
    requires s.threads[t].pc.Spinning? && s.threads[t].entered <= s.gen && !WrapPending(s)
    ensures Apply(n, s, t, Look).threads[t].pc.Outside?
    ensures s.threads[u].entered <= s.threads[t].entered + 1
  {
    LeavesExactly(n, s, t);
    assert ThreadOk(n, s, t) && ThreadOk(n, s, u);
  }

  /** The counter stays within 0..2n; 2n is reached only while the wrap is pending. */
  lemma CounterBounds(n: nat, s: State)
    requires 1 <= n && Inv(n, s)
    ensures s.bar <= 2 * n && (s.bar == 2 * n <==> WrapPending(s))
  {
    if !WrapPending(s) {
      assert s.bar == Base(n, s.gen) + |Inside(s)|;
    }
  }

  /** With all n threads inside, one of them can always go on. */
  lemma NoDeadlock(n: nat, s: State) returns (t: nat)
    requires 1 <= n < 0x8000_0000 && Inv(n, s) && forall u :: 0 <= u < n ==> !s.threads[u].pc.Outside?
    ensures t < n
    ensures Enabled(s, t, Subtract) || (Enabled(s, t, Look) && Apply(n, s, t, Look).threads[t].pc.Outside?)
  {
    if WrapPending(s) {
      t :| 0 <= t < n && s.threads[t].pc.Wrapping?;
    } else {
      t := Missing(Inside(s), n);
      assert ThreadOk(n, s, t);
      LeavesExactly(n, s, t);
    }
  }

  // ---------------------------------------------------------------- progress

  ghost predicate IsPath(n: nat, path: seq<State>)
  {
    |path| > 0 && forall i :: 0 <= i < |path| - 1 ==> Next(n, path[i], path[i + 1])
  }

  lemma StepInv(n: nat, s: State, t: nat, a: Action)
    requires 1 <= n < 0x8000_0000 && Inv(n, s) && t < n && Enabled(s, t, a)
    ensures Inv(n, Apply(n, s, t, a))
  {
    match a
    case Enter => EnterStep(n, s, t);
    case Subtract => SubtractStep(n, s, t);
    case Look => LookStep(n, s, t);
  }

  lemma Prepend(n: nat, s: State, t: nat, a: Action, path: seq<State>) returns (longer: seq<State>)
    requires t < |s.threads| && Enabled(s, t, a) && IsPath(n, path) && path[0] == Apply(n, s, t, a)
    ensures IsPath(n, longer) && longer[0] == s && Last(longer) == Last(path)
  {
    longer := [s] + path;
    assert Next(n, s, path[0]);
    forall i | 0 <= i < |longer| - 1
      ensures Next(n, longer[i], longer[i + 1])
    {
      if i > 0 {
        assert longer[i] == path[i - 1] && longer[i + 1] == path[i];
      }
    }
  }

  /** Whoever is missing in the generation in progress: at the wrap, still in the one before, or outside. */
  lemma NextMissing(n: nat, s: State) returns (t: nat, a: Action)
    requires 1 <= n < 0x8000_0000 && Inv(n, s)
    ensures t < n && t !in Inside(s) && Enabled(s, t, a)
    ensures a == if WrapPending(s) then Subtract else if s.threads[t].pc.Outside? then Enter else Look
    ensures a.Look? ==> Apply(n, s, t, Look).threads[t].pc.Outside?
  {
    if WrapPending(s) {
      t :| 0 <= t < n && s.threads[t].pc.Wrapping?;
      a := Subtract;
      assert ThreadOk(n, s, t);
    } else {
      t := Missing(Inside(s), n);
      assert ThreadOk(n, s, t);
      a := if s.threads[t].pc.Outside? then Enter else Look;
      if a.Look? {
        LeavesExactly(n, s, t);
      }
    }
  }

  /** The threads that are outside. */
  ghost function Outsiders(s: State): set<nat>
  {
    set t | 0 <= t < |s.threads| && s.threads[t].pc.Outside?
  }

  /** One more thread in, or one more out of the generation before. */
  lemma MissingMoves(n: nat, s: State, t: nat, a: Action)
    requires 1 <= n < 0x8000_0000 && Inv(n, s) && t < n && t !in Inside(s) && Enabled(s, t, a)
    requires a == if WrapPending(s) then Subtract else if s.threads[t].pc.Outside? then Enter else Look
    requires a.Look? ==> Apply(n, s, t, Look).threads[t].pc.Outside?
    ensures var s' := Apply(n, s, t, a);
            || s'.gen == s.gen + 1
            || (s'.gen == s.gen && a.Enter? && |Inside(s')| == |Inside(s)| + 1)
            || (s'.gen == s.gen && !a.Enter? && Inside(s') == Inside(s) && Outsiders(s') == Outsiders(s) + {t}
                && t !in Outsiders(s))
  {
    if a.Enter? {
      EnterEffect(n, s, t);
      EnterCounts(n, s, t, Apply(n, s, t, Enter).(gen := s.gen));
    }
  }

  lemma FewOutsiders(n: nat, s: State)
    requires |s.threads| == n
    ensures |Outsiders(s)| <= n
  {
    AtMost(Outsiders(s), n);
  }

  /** From every reachable state, the threads going on can complete the generation in progress. */
  lemma {:induction false} CanComplete(n: nat, s: State) returns (path: seq<State>)
    requires 1 <= n < 0x8000_0000 && Inv(n, s)
    ensures IsPath(n, path) && path[0] == s && Last(path).gen == s.gen + 1
    decreases n - |Inside(s)|, n - |Outsiders(s)|
  {
    var t, a := NextMissing(n, s);
    StepInv(n, s, t, a);
    MissingMoves(n, s, t, a);
    var s' := Apply(n, s, t, a);
    FewOutsiders(n, s');
    if s'.gen == s.gen + 1 {
      path := [s'];
    } else {
      path := CanComplete(n, s');
    }
    path := Prepend(n, s, t, a, path);
  }
}
