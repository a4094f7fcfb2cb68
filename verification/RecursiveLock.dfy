/**
 The recursive reader/writer lock: per-thread read counts of 8 bits, a write owner and a
 32-bit write count, around the plain lock.  A thread nests read locks or write locks,
 not both at once.
 */
module RecursiveLock {
  import opened Sequences
  import opened Words
  import Base = RwLock

  const U8: nat := 0x100
  const NO_OWNER: int := -1

  /** The deepest nesting callers reach. */
  datatype Limits = Limits(read: nat, write: nat)

  /** The deepest nesting for which the counts of the source are wide enough. */
  predicate Counted(c: Limits) { c.read < U8 && c.write < U32 }

  datatype Pc =
    | Ready
    | ReadLocking     // in the plain read_lock
    | ReadAcquired    // plain lock taken, rd_cnt still to be set
    | ReadReleasing   // rd_cnt dropped to zero, plain unlock still to come
    | WriteLocking
    | WriteAcquired   // plain lock taken, wr_owner still to be set
    | WriteOwned      // wr_owner set, wr_cnt still to be set
    | WriteCounted    // wr_cnt dropped to zero, wr_owner still to be cleared
    | WriteReleasing  // wr_owner cleared, plain unlock still to come

  /** `rdepth`, `wdepth`: how deep each thread is nested (history). */
  datatype State = State(base: Base.State, rd: seq<nat>, owner: int, wr: u32, pcs: seq<Pc>, rdepth: seq<nat>,
                         wdepth: seq<nat>)
  {
    predicate Sized() { |base.pcs| == |rd| == |pcs| == |rdepth| == |wdepth| }
  }

  datatype Action =
    | ReadLock | ReadSet | ReadUnlock | ReadRelease
    | WriteLock | WriteOwn | WriteSet | WriteUnlock | WriteDisown | WriteRelease
    | Inner(a: Base.Action)

  predicate Enabled(c: Limits, s: State, t: nat, a: Action)
    requires s.Sized() && t < |s.pcs|
  {
    var p := s.pcs[t];
    match a
    case ReadLock => p.Ready? && s.wdepth[t] == 0 && s.rdepth[t] < c.read
    case ReadSet => p.ReadAcquired?
    case ReadUnlock => p.Ready? && s.rdepth[t] > 0
    case ReadRelease => p.ReadReleasing? && Base.Enabled(s.base, t, Base.ReadUnlock)
    case WriteLock => p.Ready? && s.rdepth[t] == 0 && s.wdepth[t] < c.write
    case WriteOwn => p.WriteAcquired?
    case WriteSet => p.WriteOwned?
    case WriteUnlock => p.Ready? && s.wdepth[t] > 0
    case WriteDisown => p.WriteCounted?
    case WriteRelease => p.WriteReleasing? && Base.Enabled(s.base, t, Base.WriteUnlock)
    case Inner(b) =>
      && Base.Enabled(s.base, t, b)
      && (if p.ReadLocking? then b in {Base.LoadForRead, Base.SwapForRead, Base.ReadRetry}
          else p.WriteLocking? && b in {Base.LoadForWrite, Base.SwapForWrite, Base.WriteRetry})
  }

  function Apply(c: Limits, s: State, t: nat, a: Action): State
    requires s.Sized() && t < |s.pcs| && Enabled(c, s, t, a)
  {
    match a
    case ReadLock =>
      if s.rd[t] != 0 then s.(rd := s.rd[t := (s.rd[t] + 1) % U8], rdepth := s.rdepth[t := s.rdepth[t] + 1])
      else s.(pcs := s.pcs[t := ReadLocking])
    case ReadSet => s.(rd := s.rd[t := 1], rdepth := s.rdepth[t := s.rdepth[t] + 1], pcs := s.pcs[t := Ready])
    case ReadUnlock =>
      var n := (s.rd[t] + (U8 - 1)) % U8;
      s.(rd := s.rd[t := n], rdepth := s.rdepth[t := s.rdepth[t] - 1],
         pcs := s.pcs[t := if n > 0 then Ready else ReadReleasing])
    case ReadRelease => s.(base := Base.Apply(s.base, t, Base.ReadUnlock), pcs := s.pcs[t := Ready])
    case WriteLock =>
      if s.owner == t then s.(wr := Wrap(s.wr + 1), wdepth := s.wdepth[t := s.wdepth[t] + 1])
      else s.(pcs := s.pcs[t := WriteLocking])
    case WriteOwn => s.(owner := t, pcs := s.pcs[t := WriteOwned])
    case WriteSet => s.(wr := 1, wdepth := s.wdepth[t := s.wdepth[t] + 1], pcs := s.pcs[t := Ready])
    case WriteUnlock =>
      var n := Wrap(s.wr - 1);
      s.(wr := n, wdepth := s.wdepth[t := s.wdepth[t] - 1], pcs := s.pcs[t := if n > 0 then Ready else WriteCounted])
    case WriteDisown => s.(owner := NO_OWNER, pcs := s.pcs[t := WriteReleasing])
    case WriteRelease => s.(base := Base.Apply(s.base, t, Base.WriteUnlock), pcs := s.pcs[t := Ready])
    case Inner(b) =>
      var base := Base.Apply(s.base, t, b);
      s.(base := base,
         pcs := if base.pcs[t].Reading? then s.pcs[t := ReadAcquired]
                else if base.pcs[t].Writing? then s.pcs[t := WriteAcquired] else s.pcs)
  }

  ghost predicate Init(s: State)
  {
    && s.Sized() && Base.Init(s.base) && s.owner == NO_OWNER
    && forall t :: 0 <= t < |s.pcs| ==> s.pcs[t] == Ready && s.rd[t] == s.rdepth[t] == s.wdepth[t] == 0
  }

  ghost predicate Next(c: Limits, s: State, s': State)
  {
    s.Sized() && exists t: nat, a :: t < |s.pcs| && Enabled(c, s, t, a) && s' == Apply(c, s, t, a)
  }

  ghost predicate IsRun(c: Limits, run: seq<State>)
  {
    && |run| > 0 && Init(run[0])
    && forall i :: 0 <= i < |run| - 1 ==> Next(c, run[i], run[i + 1])
  }

  // ---------------------------------------------------------------- the invariant

  /** Whether thread t, in its wrapper state p, has the plain lock for reading or writing. */
  predicate BaseOk(p: Pc, b: Base.Pc, rdepth: nat, wdepth: nat)
  {
    match p
    case Ready => b == if rdepth > 0 then Base.Reading else if wdepth > 0 then Base.Writing else Base.Idle
    case ReadLocking => b.Idle? || b.ReadLoaded?
    case ReadAcquired => b.Reading?
    case ReadReleasing => b.Reading?
    case WriteLocking => b.Idle? || b.WriteLoaded?
    case _ => b.Writing?
  }

  ghost predicate ThreadOk(c: Limits, s: State, t: nat)
    requires s.Sized() && t < |s.pcs|
  {
    var p := s.pcs[t];
    && s.rdepth[t] <= c.read && s.wdepth[t] <= c.write
    && s.rd[t] == s.rdepth[t] && (s.rdepth[t] == 0 || s.wdepth[t] == 0)
    && (!p.Ready? ==> s.rdepth[t] == s.wdepth[t] == 0)
    && (p.ReadLocking? || p.ReadAcquired? ==> c.read >= 1)
    && (p.WriteLocking? || p.WriteAcquired? || p.WriteOwned? ==> c.write >= 1)
    && BaseOk(p, s.base.pcs[t], s.rdepth[t], s.wdepth[t])
    && (s.owner == t <==> s.wdepth[t] > 0 || p.WriteOwned? || p.WriteCounted?)
    && (s.wdepth[t] > 0 ==> s.wr == s.wdepth[t])
  }

  ghost predicate Inv(c: Limits, s: State)
  {
    && s.Sized() && Base.Inv(s.base)
    && forall t :: 0 <= t < |s.pcs| ==> ThreadOk(c, s, t)
  }

  /** Only one thread is at the owner fields at a time: they belong to the plain lock's writer. */
  lemma OneWriter(c: Limits, s: State, t: nat, u: nat)
    requires Inv(c, s) && t < |s.pcs| && u < |s.pcs| && t != u && s.base.pcs[t].Writing?
    ensures !s.base.pcs[u].Writing? && s.wdepth[u] == 0 && !s.pcs[u].WriteOwned? && !s.pcs[u].WriteCounted?
  {
    Base.Exclusion(s.base, t, u);
    assert ThreadOk(c, s, u);
  }

  lemma StepInv(c: Limits, s: State, t: nat, a: Action)
    requires Counted(c) && Inv(c, s) && t < |s.pcs| && Enabled(c, s, t, a)
    ensures Inv(c, Apply(c, s, t, a))
  {
    BaseStep(c, s, t, a);
    OwnStep(c, s, t, a);
    forall u | 0 <= u < |s.pcs| && u != t
      ensures ThreadOk(c, Apply(c, s, t, a), u)
    {
      OtherStep(c, s, t, a, u);
    }
  }

  lemma BaseStep(c: Limits, s: State, t: nat, a: Action)
    requires Inv(c, s) && t < |s.pcs| && Enabled(c, s, t, a)
    ensures Base.Inv(Apply(c, s, t, a).base)
  {
    if a.Inner? {
      Base.StepInv(s.base, t, a.a);
    } else if a.ReadRelease? {
      Base.StepInv(s.base, t, Base.ReadUnlock);
    } else if a.WriteRelease? {
      Base.StepInv(s.base, t, Base.WriteUnlock);
    }
  }

  lemma OtherStep(c: Limits, s: State, t: nat, a: Action, u: nat)
    requires Inv(c, s) && t < |s.pcs| && Enabled(c, s, t, a) && u < |s.pcs| && u != t
    ensures ThreadOk(c, Apply(c, s, t, a), u)
  {
    assert ThreadOk(c, s, t) && ThreadOk(c, s, u);
    if s.base.pcs[t].Writing? { OneWriter(c, s, t, u); }
  }

  lemma OwnStep(c: Limits, s: State, t: nat, a: Action)
    requires Counted(c) && Inv(c, s) && t < |s.pcs| && Enabled(c, s, t, a)
    ensures ThreadOk(c, Apply(c, s, t, a), t)
  {
    assert ThreadOk(c, s, t);
    assert forall n: nat :: n < U8 ==> n % U8 == n;
    assert forall n: nat :: n < U32 ==> Wrap(n) == n;
    if a.ReadUnlock? {
      assert (s.rd[t] + (U8 - 1)) % U8 == s.rd[t] - 1;
    }
  }

  lemma {:induction false} RunInv(c: Limits, run: seq<State>)
    requires Counted(c) && IsRun(c, run)
    ensures Inv(c, run[|run| - 1])
  {
    if |run| == 1 {
      InitInv(c, run[0]);
    } else {
      assert IsRun(c, run[..|run| - 1]);
      RunInv(c, run[..|run| - 1]);
      NextInv(c, run[|run| - 2], run[|run| - 1]);
    }
  }

  lemma InitInv(c: Limits, s: State)
    requires Counted(c) && Init(s)
    ensures Inv(c, s)
  {
    assert Base.IsRun([s.base]);
    Base.RunInv([s.base]);
  }

  lemma NextInv(c: Limits, s: State, s': State)
    requires Counted(c) && Inv(c, s) && Next(c, s, s')
    ensures Inv(c, s')
  {
    var t: nat, a :| t < |s.pcs| && Enabled(c, s, t, a) && s' == Apply(c, s, t, a);
    StepInv(c, s, t, a);
  }

  // ---------------------------------------------------------------- what the wrapper promises

  /** Between calls, a thread has the plain lock exactly while its count is positive. */
  ghost predicate Faithful(s: State)
  {
    s.Sized() && forall t :: 0 <= t < |s.pcs| && s.pcs[t].Ready? ==>
      && (s.base.pcs[t].Reading? <==> s.rd[t] > 0)
      && (s.base.pcs[t].Writing? <==> s.owner == t && s.wr > 0)
  }

  /** A thread nested in write locks is alone with the lock. */
  lemma WriterAlone(c: Limits, run: seq<State>, t: nat, u: nat)
    requires Counted(c) && IsRun(c, run)
    requires run[|run| - 1].Sized() && t < |run[|run| - 1].pcs| && u < |run[|run| - 1].pcs| && t != u
    requires run[|run| - 1].wdepth[t] > 0
    ensures run[|run| - 1].wdepth[u] == 0 && run[|run| - 1].rdepth[u] == 0
  {
    RunInv(c, run);
    var s := run[|run| - 1];
    assert ThreadOk(c, s, t) && ThreadOk(c, s, u);
    Base.Exclusion(s.base, t, u);
  }

  // The counts overflow exactly beyond these limits.

  lemma Extend(c: Limits, run: seq<State>, t: nat, a: Action) returns (longer: seq<State>)
    requires IsRun(c, run) && Last(run).Sized() && t < |Last(run).pcs| && Enabled(c, Last(run), t, a)
    ensures IsRun(c, longer) && Last(longer) == Apply(c, Last(run), t, a)
  {
    var s := Apply(c, Last(run), t, a);
    assert Next(c, Last(run), s);
    longer := run + [s];
    forall i | 0 <= i < |longer| - 1
      ensures Next(c, longer[i], longer[i + 1])
    {
      if i < |run| - 1 {
        assert longer[i] == run[i] && longer[i + 1] == run[i + 1];
      }
    }
  }

  function Start(): (s: State)
    ensures Init(s)
  {
    State(Base.State(0, [Base.Idle]), [0], NO_OWNER, 0, [Ready], [0], [0])
  }

  /** One thread can nest read locks as deep as it is allowed to. */
  lemma {:induction false} NestReads(c: Limits, n: nat) returns (run: seq<State>)
    requires 1 <= n <= c.read && n <= U8
    ensures IsRun(c, run)
    ensures Last(run) == State(Base.State(1, [Base.Reading]), [n % U8], NO_OWNER, 0, [Ready], [n], [0])
  {
    if n == 1 {
      run := [Start()];
      run := Extend(c, run, 0, ReadLock);
      run := Extend(c, run, 0, Inner(Base.LoadForRead));
      run := Extend(c, run, 0, Inner(Base.SwapForRead));
      run := Extend(c, run, 0, ReadSet);
    } else {
      run := NestReads(c, n - 1);
      run := Extend(c, run, 0, ReadLock);
    }
  }

  lemma {:induction false} NestWrites(c: Limits, n: nat) returns (run: seq<State>)
    requires 1 <= n <= c.write && n <= U32
    ensures IsRun(c, run)
    ensures Last(run) == State(Base.State(Base.ALL_ONES, [Base.Writing]), [0], 0, Wrap(n), [Ready], [0], [n])
    decreases n
  {
    if n == 1 {
      run := [Start()];
      run := Extend(c, run, 0, WriteLock);
      run := Extend(c, run, 0, Inner(Base.LoadForWrite));
      run := Extend(c, run, 0, Inner(Base.SwapForWrite));
      run := Extend(c, run, 0, WriteOwn);
      run := Extend(c, run, 0, WriteSet);
    } else {
      run := NestWrites(c, n - 1);
      WrapPlus(n - 1, 1);
      run := Extend(c, run, 0, WriteLock);
    }
  }

  /**
   The wrapper is faithful in every run exactly if no thread nests more than 255 read
   locks or 2^32 - 1 write locks.
   */
  lemma FaithfulIffCounted(c: Limits)
    ensures Counted(c) <==> forall run :: IsRun(c, run) ==> Faithful(Last(run))
  {
    if Counted(c) {
      forall run | IsRun(c, run)
        ensures Faithful(Last(run))
      {
        RunInv(c, run);
        InvFaithful(c, Last(run));
      }
    } else if c.read >= U8 {
      var run := NestReads(c, U8);
      assert Last(run).pcs[0].Ready? && Last(run).base.pcs[0].Reading? && Last(run).rd[0] == 0;
    } else {
      var run := NestWrites(c, U32);
      assert Last(run).pcs[0].Ready? && Last(run).base.pcs[0].Writing? && Last(run).wr == 0;
    }
  }

  lemma InvFaithful(c: Limits, s: State)
    requires Inv(c, s)
    ensures Faithful(s)
  {
    forall t | 0 <= t < |s.pcs| && s.pcs[t].Ready?
      ensures s.base.pcs[t].Reading? <==> s.rd[t] > 0
      ensures s.base.pcs[t].Writing? <==> s.owner == t && s.wr > 0
    {
      assert ThreadOk(c, s, t);
    }
  }

  // ---------------------------------------------------------------- the lock can be had

  /** A nested read lock is counted at once, without the plain lock. */
  lemma NestedRead(c: Limits, s: State, t: nat)
    requires Counted(c) && Inv(c, s) && t < |s.pcs| && s.pcs[t].Ready? && 0 < s.rdepth[t] < c.read
    ensures Enabled(c, s, t, ReadLock)
    ensures var s' := Apply(c, s, t, ReadLock);
            s'.base == s.base && s'.pcs == s.pcs && s'.rdepth == s.rdepth[t := s.rdepth[t] + 1]
  {
    assert ThreadOk(c, s, t);
  }

  lemma NestedWrite(c: Limits, s: State, t: nat)
    requires Counted(c) && Inv(c, s) && t < |s.pcs| && s.pcs[t].Ready? && 0 < s.wdepth[t] < c.write
    ensures Enabled(c, s, t, WriteLock)
    ensures var s' := Apply(c, s, t, WriteLock);
            s'.base == s.base && s'.pcs == s.pcs && s'.wdepth == s.wdepth[t := s.wdepth[t] + 1]
  {
    assert ThreadOk(c, s, t);
  }

  /** A thread in the middle of a call always has a step, in the plain lock or in the wrapper. */
  lemma NeverStuck(c: Limits, s: State, t: nat) returns (a: Action)
    requires Inv(c, s) && t < |s.pcs| && !s.pcs[t].Ready?
    ensures Enabled(c, s, t, a)
  {
    assert ThreadOk(c, s, t);
    match s.pcs[t]
    case ReadLocking =>
      a := Inner(if s.base.pcs[t].Idle? then Base.LoadForRead
                 else if Base.Enabled(s.base, t, Base.SwapForRead) then Base.SwapForRead else Base.ReadRetry);
    case WriteLocking =>
      a := Inner(if s.base.pcs[t].Idle? then Base.LoadForWrite
                 else if Base.Enabled(s.base, t, Base.SwapForWrite) then Base.SwapForWrite else Base.WriteRetry);
    case ReadAcquired => a := ReadSet;
    case ReadReleasing => a := ReadRelease;
    case WriteAcquired => a := WriteOwn;
    case WriteOwned => a := WriteSet;
    case WriteCounted => a := WriteDisown;
    case WriteReleasing => a := WriteRelease;
  }

  /** An unlock takes off one level; the plain lock is given back with the last one, and only then. */
  lemma UnnestRead(c: Limits, s: State, t: nat)
    requires Counted(c) && Inv(c, s) && t < |s.pcs| && s.pcs[t].Ready? && s.rdepth[t] > 0
    ensures Enabled(c, s, t, ReadUnlock)
    ensures var s' := Apply(c, s, t, ReadUnlock);
            && s'.Sized() && s'.rdepth == s.rdepth[t := s.rdepth[t] - 1] && s'.base == s.base
            && (s.rdepth[t] > 1 ==> s'.pcs == s.pcs)
            && (s.rdepth[t] == 1 ==> Enabled(c, s', t, ReadRelease)
                                     && Apply(c, s', t, ReadRelease).base.pcs == s.base.pcs[t := Base.Idle]
                                     && Apply(c, s', t, ReadRelease).pcs == s.pcs)
  {
    assert ThreadOk(c, s, t);
    OwnStep(c, s, t, ReadUnlock);
  }

  lemma UnnestWrite(c: Limits, s: State, t: nat)
    requires Counted(c) && Inv(c, s) && t < |s.pcs| && s.pcs[t].Ready? && s.wdepth[t] > 0
    ensures Enabled(c, s, t, WriteUnlock)
    ensures var s' := Apply(c, s, t, WriteUnlock);
            && s'.Sized() && s'.wdepth == s.wdepth[t := s.wdepth[t] - 1] && s'.base == s.base
            && (s.wdepth[t] > 1 ==> s'.pcs == s.pcs)
            && (s.wdepth[t] == 1 ==>
                  && Enabled(c, s', t, WriteDisown)
                  && var s2 := Apply(c, s', t, WriteDisown);
                     && s2.Sized() && Enabled(c, s2, t, WriteRelease)
                     && Apply(c, s2, t, WriteRelease).base.pcs == s.base.pcs[t := Base.Idle]
                     && Apply(c, s2, t, WriteRelease).pcs == s.pcs)
  {
    assert ThreadOk(c, s, t);
    OwnStep(c, s, t, WriteUnlock);
  }
}
