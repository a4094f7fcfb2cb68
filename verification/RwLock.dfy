/**
 The reader/writer lock as a system of atomic steps, over a 32-bit counter that is the
 number of readers, or all ones while there is a writer.
 */
module RwLock {
  import opened Sequences
  import opened Words

  const ALL_ONES: u32 := 0xFFFF_FFFF

  datatype Pc =
    | Idle
    | ReadLoaded(cnt: u32)   // read_lock: counter loaded
    | Reading
    | WriteLoaded(cnt: u32)  // write_lock: counter loaded
    | Writing

  datatype State = State(cnt: u32, pcs: seq<Pc>)

  datatype Action =
    | LoadForRead | SwapForRead | ReadRetry | ReadUnlock
    | LoadForWrite | SwapForWrite | WriteRetry | WriteUnlock

  /** (int32_t)cnt < 0 */
  predicate Negative(cnt: u32) { cnt >= 0x8000_0000 }

  predicate Enabled(s: State, t: nat, a: Action)
    requires t < |s.pcs|
  {
    var p := s.pcs[t];
    match a
    case LoadForRead => p.Idle?
    case SwapForRead => p.ReadLoaded? && !Negative(p.cnt) && s.cnt == p.cnt
    case ReadRetry => p.ReadLoaded? && (Negative(p.cnt) || s.cnt != p.cnt)
    case ReadUnlock => p.Reading?
    case LoadForWrite => p.Idle?
    case SwapForWrite => p.WriteLoaded? && p.cnt == 0 && s.cnt == 0
    case WriteRetry => p.WriteLoaded? && (p.cnt != 0 || s.cnt != 0)
    case WriteUnlock => p.Writing?
  }

  function Apply(s: State, t: nat, a: Action): State
    requires t < |s.pcs| && Enabled(s, t, a)
  {
    match a
    case LoadForRead => s.(pcs := s.pcs[t := ReadLoaded(s.cnt)])
    case SwapForRead => State(Wrap(s.pcs[t].cnt + 1), s.pcs[t := Reading])
    case ReadRetry => s.(pcs := s.pcs[t := Idle])
    case ReadUnlock => State(Wrap(s.cnt - 1), s.pcs[t := Idle])
    case LoadForWrite => s.(pcs := s.pcs[t := WriteLoaded(s.cnt)])
    case SwapForWrite => State(ALL_ONES, s.pcs[t := Writing])
    case WriteRetry => s.(pcs := s.pcs[t := Idle])
    case WriteUnlock => State(0, s.pcs[t := Idle])
  }

  ghost predicate Init(s: State)
  {
    s.cnt == 0 && forall t :: 0 <= t < |s.pcs| ==> s.pcs[t].Idle?
  }

  ghost predicate Next(s: State, s': State)
  {
    exists t: nat, a :: t < |s.pcs| && Enabled(s, t, a) && s' == Apply(s, t, a)
  }

  ghost predicate IsRun(run: seq<State>)
  {
    && |run| > 0 && Init(run[0])
    && forall i :: 0 <= i < |run| - 1 ==> Next(run[i], run[i + 1])
  }

  ghost function Readers(s: State): set<nat>
  {
    set t | 0 <= t < |s.pcs| && s.pcs[t].Reading?
  }

  ghost function Writers(s: State): set<nat>
  {
    set t | 0 <= t < |s.pcs| && s.pcs[t].Writing?
  }

  /**
   Either there is no writer and the counter is the number of readers, or there is one
   writer, no reader, and the counter is all ones.
   */
  ghost predicate Inv(s: State)
  {
    if Writers(s) == {} then s.cnt == |Readers(s)| <= 0x8000_0000
    else |Writers(s)| == 1 && Readers(s) == {} && s.cnt == ALL_ONES
  }

  lemma MovePc(s: State, t: nat, s': State)
    requires t < |s.pcs| == |s'.pcs| && s'.pcs == s.pcs[t := s'.pcs[t]]
    ensures Readers(s') == if s'.pcs[t].Reading? then Readers(s) + {t} else Readers(s) - {t}
    ensures Writers(s') == if s'.pcs[t].Writing? then Writers(s) + {t} else Writers(s) - {t}
  {
  }

  ghost predicate Moves(s: State, t: nat, s': State)
  {
    t < |s.pcs| == |s'.pcs| && s'.pcs == s.pcs[t := s'.pcs[t]]
  }

  /** A reader in, or out again: the counter follows. */
  lemma ReaderIn(s: State, t: nat, s': State)
    requires Inv(s) && Moves(s, t, s') && !s.pcs[t].Reading? && !s.pcs[t].Writing? && s'.pcs[t].Reading?
    requires !Negative(s.cnt) && s'.cnt == s.cnt + 1
    ensures Inv(s')
  {
    MovePc(s, t, s');
    assert t !in Readers(s) && t !in Writers(s) && Writers(s') == Writers(s);
  }

  lemma ReaderOut(s: State, t: nat, s': State)
    requires Inv(s) && Moves(s, t, s') && s.pcs[t].Reading? && !s'.pcs[t].Reading? && !s'.pcs[t].Writing?
    requires s.cnt > 0 ==> s'.cnt == s.cnt - 1
    ensures Inv(s')
  {
    MovePc(s, t, s');
    assert t in Readers(s) && t !in Writers(s) && Writers(s') == Writers(s);
  }

  lemma WriterIn(s: State, t: nat, s': State)
    requires Inv(s) && Moves(s, t, s') && s.cnt == 0 && s'.pcs[t].Writing? && s'.cnt == ALL_ONES
    ensures Inv(s')
  {
    MovePc(s, t, s');
    assert Writers(s') == {t} && Readers(s') == {};
  }

  lemma WriterOut(s: State, t: nat, s': State)
    requires Inv(s) && Moves(s, t, s') && s.pcs[t].Writing? && !s'.pcs[t].Reading? && !s'.pcs[t].Writing? && s'.cnt == 0
    ensures Inv(s')
  {
    MovePc(s, t, s');
    assert t in Writers(s);
    assert |Writers(s')| == |Writers(s)| - 1 == 0;
  }

  /** Loads and retries change neither set. */
  lemma QuietStep(s: State, t: nat, s': State)
    requires Inv(s) && Moves(s, t, s') && s'.cnt == s.cnt
    requires !s.pcs[t].Reading? && !s.pcs[t].Writing? && !s'.pcs[t].Reading? && !s'.pcs[t].Writing?
    ensures Inv(s')
  {
    MovePc(s, t, s');
    assert t !in Readers(s) && t !in Writers(s);
    assert Readers(s') == Readers(s) && Writers(s') == Writers(s);
  }

  /** No bound on the number of threads is needed: a reader never swaps a negative counter. */
  lemma StepInv(s: State, t: nat, a: Action)
    requires Inv(s) && t < |s.pcs| && Enabled(s, t, a)
    ensures Inv(Apply(s, t, a))
  {
    var s' := Apply(s, t, a);
    match a
    case SwapForRead => ReaderIn(s, t, s');
    case ReadUnlock => ReaderOut(s, t, s');
    case SwapForWrite => WriterIn(s, t, s');
    case WriteUnlock => WriterOut(s, t, s');
    case _ => QuietStep(s, t, s');
  }

  lemma {:induction false} RunInv(run: seq<State>)
    requires IsRun(run)
    ensures Inv(run[|run| - 1])
  {
    if |run| == 1 {
      assert Readers(run[0]) == {} && Writers(run[0]) == {};
    } else {
      assert IsRun(run[..|run| - 1]);
      RunInv(run[..|run| - 1]);
      var s := run[|run| - 2];
      var t: nat, a :| t < |s.pcs| && Enabled(s, t, a) && run[|run| - 1] == Apply(s, t, a);
      StepInv(s, t, a);
    }
  }

  /** A writer excludes every other thread; readers exclude writers. */
  lemma Exclusion(s: State, t: nat, u: nat)
    requires Inv(s) && t < |s.pcs| && u < |s.pcs| && s.pcs[t].Writing? && u != t
    ensures !s.pcs[u].Writing? && !s.pcs[u].Reading?
  {
    assert t in Writers(s);
    assert u in Readers(s) <==> s.pcs[u].Reading?;
    TwoMembers(Writers(s), t, u);
  }

  lemma TwoMembers(a: set<nat>, t: nat, u: nat)
    ensures t in a && u in a && t != u ==> |a| >= 2
  {
    if t in a && u in a && t != u {
      assert |a - {t}| == |a| - 1 && u in a - {t};
    }
  }

  // ---------------------------------------------------------------- the lock can be had

  /** Readers share: without a writer and below 2^31 readers, one more thread going on alone gets in. */
  lemma ReaderEnters(s: State, t: nat)
    requires Inv(s) && t < |s.pcs| && s.pcs[t].Idle? && Writers(s) == {} && |Readers(s)| < 0x8000_0000
    ensures Enabled(s, t, LoadForRead) && Enabled(Apply(s, t, LoadForRead), t, SwapForRead)
    ensures var s' := Apply(Apply(s, t, LoadForRead), t, SwapForRead);
            s'.pcs == s.pcs[t := Reading] && Readers(s') == Readers(s) + {t}
  {
    MovePc(s, t, Apply(Apply(s, t, LoadForRead), t, SwapForRead));
  }

  /** A free lock is to be had for writing. */
  lemma WriterEnters(s: State, t: nat)
    requires Inv(s) && t < |s.pcs| && s.pcs[t].Idle? && Writers(s) == {} && Readers(s) == {}
    ensures Enabled(s, t, LoadForWrite) && Enabled(Apply(s, t, LoadForWrite), t, SwapForWrite)
    ensures Apply(Apply(s, t, LoadForWrite), t, SwapForWrite).pcs == s.pcs[t := Writing]
  {
  }

  /** Whoever leaves leaves the lock to be had again: a writer frees it, a reader takes one off. */
  lemma Leaves(s: State, t: nat)
    requires Inv(s) && t < |s.pcs| && (s.pcs[t].Reading? || s.pcs[t].Writing?)
    ensures s.pcs[t].Writing? ==> Enabled(s, t, WriteUnlock) && Writers(Apply(s, t, WriteUnlock)) == {}
                                  && Readers(Apply(s, t, WriteUnlock)) == {} && Apply(s, t, WriteUnlock).pcs[t].Idle?
    ensures s.pcs[t].Reading? ==> Enabled(s, t, ReadUnlock) && Apply(s, t, ReadUnlock).pcs[t].Idle?
                                  && Readers(Apply(s, t, ReadUnlock)) == Readers(s) - {t}
  {
    if s.pcs[t].Writing? {
      MovePc(s, t, Apply(s, t, WriteUnlock));
      assert t in Writers(s);
      StepInv(s, t, WriteUnlock);
      assert |Writers(s) - {t}| == 0;
    } else {
      MovePc(s, t, Apply(s, t, ReadUnlock));
    }
  }

  lemma Extend(run: seq<State>, t: nat, a: Action) returns (longer: seq<State>)
    requires IsRun(run) && t < |Last(run).pcs| && Enabled(Last(run), t, a)
    ensures IsRun(longer) && Last(longer) == Apply(Last(run), t, a)
  {
    var s := Last(run);
    assert Next(s, Apply(s, t, a));
    longer := run + [Apply(s, t, a)];
    forall i | 0 <= i < |longer| - 1
      ensures Next(longer[i], longer[i + 1])
    {
      if i < |run| - 1 {
        assert longer[i] == run[i] && longer[i + 1] == run[i + 1];
      }
    }
  }

  /** There are runs with any number of simultaneous readers up to 2^31. */
  lemma {:induction false} ManyReaders(n: nat, m: nat) returns (run: seq<State>)
    requires m <= n && m <= 0x8000_0000
    ensures IsRun(run) && Last(run).cnt == m && |Last(run).pcs| == n
    ensures forall t :: 0 <= t < n ==> Last(run).pcs[t] == if t < m then Reading else Idle
  {
    if m == 0 {
      run := [State(0, seq(n, i => Idle))];
    } else {
      run := ManyReaders(n, m - 1);
      run := Extend(run, m - 1, LoadForRead);
      run := Extend(run, m - 1, SwapForRead);
    }
  }

  /** No thread is ever stuck: it can always take a step, if only to look again. */
  lemma NeverStuck(s: State, t: nat) returns (a: Action)
    requires t < |s.pcs|
    ensures Enabled(s, t, a)
  {
    match s.pcs[t]
    case Idle => a := LoadForRead;
    case ReadLoaded(_) => a := if Enabled(s, t, SwapForRead) then SwapForRead else ReadRetry;
    case Reading => a := ReadUnlock;
    case WriteLoaded(_) => a := if Enabled(s, t, SwapForWrite) then SwapForWrite else WriteRetry;
    case Writing => a := WriteUnlock;
  }

  /** A thread looks again only if the counter has changed since, or the lock really was not to be had. */
  lemma RetryMeansBusy(s: State, t: nat)
    requires Inv(s) && t < |s.pcs|
    ensures Enabled(s, t, ReadRetry) && s.cnt == s.pcs[t].cnt ==> Writers(s) != {} || |Readers(s)| == 0x8000_0000
    ensures Enabled(s, t, WriteRetry) && s.cnt == s.pcs[t].cnt ==> Writers(s) != {} || Readers(s) != {}
  {
  }
}
