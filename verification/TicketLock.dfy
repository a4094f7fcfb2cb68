/**
 The ticket lock as a system of atomic steps: lock, trylock and unlock by any number
 of threads, with 32-bit ticket counters.  `nx` and `cu` are the
 unbounded values of the two counters, kept as history.
 */
module TicketLock {
  import opened Words
  import opened ThreadSets

  datatype Pc =
    | Idle
    | Waiting(ticket: u32, no: nat)         // lock: ticket drawn, spinning
    | Holding(no: nat)                      // in the critical section
    | TryNext(next: u32, npos: nat)         // trylock: next_ticket loaded
    | TryBoth(next: u32, npos: nat, cur: u32, cpos: nat)  // trylock: cur_ticket loaded too
    | Unlocking(cur: u32, no: nat)          // unlock: cur_ticket loaded

  /** `owner`: who drew each ticket; `granted`: the tickets in the order they got the lock. */
  datatype State = State(next: u32, cur: u32, nx: nat, cu: nat, pcs: seq<Pc>, owner: seq<nat>, granted: seq<nat>)

  datatype Action = Draw | See | LoadNext | LoadCur | GiveUp | Swap | LoadOwn | Store

  predicate Enabled(s: State, t: nat, a: Action)
    requires t < |s.pcs|
  {
    var p := s.pcs[t];
    match a
    case Draw => p.Idle?
    case See => p.Waiting? && p.ticket == s.cur
    case LoadNext => p.Idle?
    case LoadCur => p.TryNext?
    case GiveUp => p.TryBoth? && (p.next != p.cur || p.next != s.next)
    case Swap => p.TryBoth? && p.next == p.cur && p.next == s.next
    case LoadOwn => p.Holding?
    case Store => p.Unlocking?
  }

  function Apply(s: State, t: nat, a: Action): State
    requires t < |s.pcs| && Enabled(s, t, a)
  {
    var p := s.pcs[t];
    match a
    case Draw =>
      s.(next := Wrap(s.next + 1), nx := s.nx + 1, owner := s.owner + [t], pcs := s.pcs[t := Waiting(s.next, s.nx)])
    case See => s.(pcs := s.pcs[t := Holding(p.no)], granted := s.granted + [p.no])
    case LoadNext => s.(pcs := s.pcs[t := TryNext(s.next, s.nx)])
    case LoadCur => s.(pcs := s.pcs[t := TryBoth(p.next, p.npos, s.cur, s.cu)])
    case GiveUp => s.(pcs := s.pcs[t := Idle])
    case Swap =>
      s.(next := Wrap(p.next + 1), nx := s.nx + 1, owner := s.owner + [t], pcs := s.pcs[t := Holding(s.nx)],
         granted := s.granted + [s.nx])
    case LoadOwn => s.(pcs := s.pcs[t := Unlocking(s.cur, p.no)])
    case Store => s.(cur := Wrap(p.cur + 1), cu := p.no + 1, pcs := s.pcs[t := Idle])
  }

  ghost predicate Init(s: State)
  {
    && s.next == 0 && s.cur == 0 && s.nx == 0 && s.cu == 0 && s.owner == [] && s.granted == []
    && forall t :: 0 <= t < |s.pcs| ==> s.pcs[t].Idle?
  }

  /** The step is not a trylock's swap after more than `gap` tickets were drawn since its first load. */
  ghost predicate Timely(gap: nat, s: State, t: nat, a: Action)
    requires t < |s.pcs|
  {
    a.Swap? && s.pcs[t].TryBoth? ==> s.nx - s.pcs[t].npos <= gap
  }

  ghost predicate Next(gap: nat, s: State, s': State)
  {
    exists t: nat, a :: t < |s.pcs| && Enabled(s, t, a) && Timely(gap, s, t, a) && s' == Apply(s, t, a)
  }

  /** A run in which no trylock's swap succeeds after more than `gap` tickets. */
  ghost predicate IsRun(gap: nat, run: seq<State>)
  {
    && |run| > 0 && Init(run[0])
    && forall i :: 0 <= i < |run| - 1 ==> Next(gap, run[i], run[i + 1])
  }

  // ---------------------------------------------------------------- the invariant

  /** The ticket a thread has in its hands. */
  function Ticket(p: Pc): int
  {
    if p.Waiting? || p.Holding? || p.Unlocking? then p.no else -1
  }

  predicate InLock(p: Pc) { p.Holding? || p.Unlocking? }

  ghost predicate PcOk(s: State, t: nat)
    requires t < |s.pcs|
  {
    var p := s.pcs[t];
    && (Ticket(p) >= 0 ==> s.cu <= Ticket(p) < s.nx && |s.owner| == s.nx && s.owner[Ticket(p)] == t)
    && (p.Waiting? ==> p.ticket == Wrap(p.no))
    && (InLock(p) ==> p.no == s.cu && |s.granted| == s.cu + 1)
    && (p.Unlocking? ==> p.cur == s.cur)
    && (p.TryNext? || p.TryBoth? ==> p.next == Wrap(p.npos) && p.npos <= s.nx)
    && (p.TryBoth? ==> p.cur == Wrap(p.cpos) && p.cpos <= s.cu && p.npos - p.cpos < U32)
  }

  /** The outstanding tickets are exactly cu .. nx - 1, each in the hands of its owner. */
  ghost predicate Outstanding(s: State)
  {
    && |s.owner| == s.nx && s.cu <= s.nx
    && forall i :: s.cu <= i < s.nx ==> s.owner[i] < |s.pcs| && Ticket(s.pcs[s.owner[i]]) == i
  }

  ghost predicate Inv(s: State)
  {
    && s.next == Wrap(s.nx) && s.cur == Wrap(s.cu) && |s.pcs| <= U32
    && Outstanding(s)
    && (forall t :: 0 <= t < |s.pcs| ==> PcOk(s, t))
    && s.cu <= |s.granted| <= s.cu + 1
    && (|s.granted| == s.cu + 1 ==> s.cu < s.nx && InLock(s.pcs[s.owner[s.cu]]))
    && (forall i :: 0 <= i < |s.granted| ==> s.granted[i] == i)
  }

  /** There are no more outstanding tickets than threads. */
  lemma {:induction false} FewTickets(s: State, k: nat) returns (holders: set<nat>)
    requires Outstanding(s) && s.cu + k <= s.nx
    ensures |holders| == k
    ensures forall t :: t in holders ==> t < |s.pcs| && s.cu <= Ticket(s.pcs[t]) < s.cu + k
    decreases k
  {
    if k == 0 {
      holders := {};
    } else {
      holders := FewTickets(s, k - 1);
      holders := holders + {s.owner[s.cu + k - 1]};
    }
  }

  lemma Room(s: State)
    requires Inv(s)
    ensures s.nx - s.cu <= |s.pcs|
  {
    var holders := FewTickets(s, s.nx - s.cu);
    AtMost(holders, |s.pcs|);
  }

  /** A thread without a ticket leaves one less for the others. */
  lemma RoomBeside(s: State, t: nat)
    requires Inv(s) && t < |s.pcs| && Ticket(s.pcs[t]) < 0
    ensures s.nx - s.cu < |s.pcs|
  {
    var holders := FewTickets(s, s.nx - s.cu);
    assert t !in holders;
    AtMost(holders + {t}, |s.pcs|);
  }

  /** When trylock's swap succeeds, nobody has or waits for the lock exactly if less than a lap has passed. */
  lemma SwapFindsFree(s: State, t: nat)
    requires Inv(s) && t < |s.pcs| && Enabled(s, t, Swap)
    ensures s.cu == s.nx == s.pcs[t].npos <==> Timely(U32 - 1, s, t, Swap)
  {
    var p := s.pcs[t];
    assert PcOk(s, t);
    if s.nx - p.npos < U32 {
      ModInjective(p.npos, s.nx, U32);
      ModInjective(p.cpos, p.npos, U32);
    }
  }

  lemma QuietStep(s: State, t: nat, p: Pc, s': State)
    requires Inv(s) && t < |s.pcs| && s' == s.(pcs := s.pcs[t := p])
    requires Ticket(p) == Ticket(s.pcs[t]) && (InLock(p) <==> InLock(s.pcs[t])) && PcOk(s', t)
    ensures Inv(s')
  {
    forall u | 0 <= u < |s.pcs|
      ensures PcOk(s', u)
    {
      assert PcOk(s, u);
    }
  }

  lemma LoadStep(s: State, t: nat, a: Action)
    requires Inv(s) && t < |s.pcs| && Enabled(s, t, a) && a in {LoadNext, LoadCur, GiveUp, LoadOwn}
    ensures Inv(Apply(s, t, a))
  {
    assert PcOk(s, t);
    if a.LoadCur? {
      RoomBeside(s, t);
    }
    QuietStep(s, t, Apply(s, t, a).pcs[t], Apply(s, t, a));
  }

  lemma DrawStep(s: State, t: nat)
    requires Inv(s) && t < |s.pcs| && Enabled(s, t, Draw)
    ensures Inv(Apply(s, t, Draw))
  {
    var s' := Apply(s, t, Draw);
    WrapPlus(s.nx, 1);
    forall u | 0 <= u < |s.pcs|
      ensures PcOk(s', u)
    {
      assert PcOk(s, u);
    }
  }

  lemma SwapStep(s: State, t: nat)
    requires Inv(s) && t < |s.pcs| && Enabled(s, t, Swap) && Timely(U32 - 1, s, t, Swap)
    ensures Inv(Apply(s, t, Swap))
  {
    var s' := Apply(s, t, Swap);
    SwapFindsFree(s, t);
    WrapPlus(s.nx, 1);
    forall u | 0 <= u < |s.pcs|
      ensures PcOk(s', u)
    {
      assert PcOk(s, u);
    }
  }

  /** The spin ends exactly when all earlier tickets are done. */
  lemma TurnCame(s: State, t: nat)
    requires Inv(s) && t < |s.pcs| && Enabled(s, t, See)
    ensures s.pcs[t].no == s.cu == |s.granted|
  {
    var p := s.pcs[t];
    assert PcOk(s, t);
    Room(s);
    ModInjective(s.cu, p.no, U32);
  }

  lemma SeeStep(s: State, t: nat)
    requires Inv(s) && t < |s.pcs| && Enabled(s, t, See)
    ensures Inv(Apply(s, t, See))
  {
    var s' := Apply(s, t, See);
    assert PcOk(s, t);
    TurnCame(s, t);
    forall u | 0 <= u < |s.pcs|
      ensures PcOk(s', u)
    {
      assert PcOk(s, u);
    }
  }

  lemma StoreStep(s: State, t: nat)
    requires Inv(s) && t < |s.pcs| && Enabled(s, t, Store)
    ensures Inv(Apply(s, t, Store))
  {
    var s' := Apply(s, t, Store);
    assert PcOk(s, t);
    WrapPlus(s.cu, 1);
    forall u | 0 <= u < |s.pcs|
      ensures PcOk(s', u)
    {
      assert PcOk(s, u);
    }
  }

  lemma StepInv(gap: nat, s: State, s': State)
    requires Inv(s) && gap < U32 && Next(gap, s, s')
    ensures Inv(s')
  {
    var t: nat, a :| t < |s.pcs| && Enabled(s, t, a) && Timely(gap, s, t, a) && s' == Apply(s, t, a);
    match a
    case Draw => DrawStep(s, t);
    case See => SeeStep(s, t);
    case Swap => SwapStep(s, t);
    case Store => StoreStep(s, t);
    case _ => LoadStep(s, t, a);
  }

  lemma {:induction false} RunInv(gap: nat, run: seq<State>)
    requires IsRun(gap, run) && gap < U32 && |run[0].pcs| <= U32
    ensures Inv(run[|run| - 1])
  {
    if |run| == 1 {
    } else {
      assert IsRun(gap, run[..|run| - 1]);
      RunInv(gap, run[..|run| - 1]);
      StepInv(gap, run[|run| - 2], run[|run| - 1]);
    }
  }

  // ---------------------------------------------------------------- what the lock promises

  /** At most one thread is in the critical section, in every state of every run. */
  lemma MutualExclusion(gap: nat, run: seq<State>, t: nat, u: nat)
    requires IsRun(gap, run) && gap < U32 && |run[0].pcs| <= U32
    requires t < |run[|run| - 1].pcs| && u < |run[|run| - 1].pcs|
    requires InLock(run[|run| - 1].pcs[t]) && InLock(run[|run| - 1].pcs[u])
    ensures t == u
  {
    RunInv(gap, run);
    assert PcOk(run[|run| - 1], t) && PcOk(run[|run| - 1], u);
  }

  /** The lock goes to the tickets in the order they were drawn, trylocks included. */
  lemma TicketOrder(gap: nat, run: seq<State>, i: nat)
    requires IsRun(gap, run) && gap < U32 && |run[0].pcs| <= U32 && i < |run[|run| - 1].granted|
    ensures run[|run| - 1].granted[i] == i
  {
    RunInv(gap, run);
  }

  /** As long as tickets are outstanding, the oldest one's thread can move on. */
  lemma OldestCanMove(s: State)
    requires Inv(s) && s.cu < s.nx
    ensures s.owner[s.cu] < |s.pcs|
    ensures exists a :: a in {See, LoadOwn, Store} && Enabled(s, s.owner[s.cu], a)
  {
    var t := s.owner[s.cu];
    var p := s.pcs[t];
    assert PcOk(s, t);
    if p.Waiting? {
      assert Enabled(s, t, See);
    } else if p.Holding? {
      assert Enabled(s, t, LoadOwn);
    } else {
      assert Enabled(s, t, Store);
    }
  }

  /** An idle thread gets a free lock by lock, going on alone. */
  lemma LockAlone(s: State, t: nat)
    requires Inv(s) && t < |s.pcs| && s.pcs[t].Idle? && s.cu == s.nx
    ensures Enabled(s, t, Draw) && Enabled(Apply(s, t, Draw), t, See)
    ensures Apply(Apply(s, t, Draw), t, See).pcs == s.pcs[t := Holding(s.nx)]
  {
  }

  /** And by trylock. */
  lemma TryAlone(s: State, t: nat)
    requires Inv(s) && t < |s.pcs| && s.pcs[t].Idle? && s.cu == s.nx
    ensures Enabled(s, t, LoadNext) && Enabled(Apply(s, t, LoadNext), t, LoadCur)
    ensures Enabled(Apply(Apply(s, t, LoadNext), t, LoadCur), t, Swap)
    ensures Apply(Apply(Apply(s, t, LoadNext), t, LoadCur), t, Swap).pcs == s.pcs[t := Holding(s.nx)]
  {
    var s1 := Apply(s, t, LoadNext);
    var s2 := Apply(s1, t, LoadCur);
    assert s1.pcs[t] == TryNext(s.next, s.nx) && s2.pcs[t] == TryBoth(s.next, s.nx, s.cur, s.cu);
  }

  /** A trylock gives up only if tickets were outstanding when it looked, or one was drawn since its first load. */
  lemma GivesUpHonestly(s: State, t: nat)
    requires Inv(s) && t < |s.pcs| && Enabled(s, t, GiveUp)
    ensures s.pcs[t].cpos < s.pcs[t].npos || s.pcs[t].npos < s.nx
  {
    assert PcOk(s, t);
  }

  /** Only a thread that waits for its ticket is ever held up; a trylock in particular never is. */
  lemma NeverStuck(s: State, t: nat) returns (a: Action)
    requires t < |s.pcs| && !s.pcs[t].Waiting?
    ensures Enabled(s, t, a)
  {
    match s.pcs[t]
    case Idle => a := Draw;
    case Holding(_) => a := LoadOwn;
    case TryNext(_, _) => a := LoadCur;
    case TryBoth(_, _, _, _) => a := if Enabled(s, t, Swap) then Swap else GiveUp;
    case Unlocking(_, _) => a := Store;
  }

  /** The holder gives the lock to the next ticket, or leaves it free. */
  lemma UnlockPasses(s: State, t: nat)
    requires Inv(s) && t < |s.pcs| && s.pcs[t].Holding?
    ensures Enabled(s, t, LoadOwn) && Enabled(Apply(s, t, LoadOwn), t, Store)
    ensures var s' := Apply(Apply(s, t, LoadOwn), t, Store);
            s'.pcs == s.pcs[t := Idle] && s'.cu == s.cu + 1 && s'.cur == Wrap(s.cu + 1) && s'.nx == s.nx
  {
    assert PcOk(s, t);
    WrapPlus(s.cu, 1);
  }
}
