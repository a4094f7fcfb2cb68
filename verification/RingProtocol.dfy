/**
 The lock-free ring as a system of atomic steps: any number of threads run the
 multi-producer, multi-consumer, single-producer and single-consumer calls, and
 every load, compare-and-swap, slot copy and store is one step.

 The four counters of the ring are 32-bit words, and every guard and every new
 word is computed from words alone.  Beside each counter the state keeps its
 unbounded position as a history variable (`hd`, `tl`); no guard reads one.

 Producers and consumers run the same protocol with the sides exchanged, so both
 are modelled by one set of steps indexed by the role of the caller.
 */
module RingProtocol {
  import opened Words

  datatype Role = Producer | Consumer

  /**
   `k`: the ring has 2^k slots.  `spEnq`, `scDeq`: calls use the single-producer or
   single-consumer entry points.  `empty`: callers may ask for zero objects.
   */
  datatype Config = Config(k: nat, spEnq: bool, scDeq: bool, empty: bool) {
    ghost predicate Valid() { k <= 27 }
    function Size(): nat { Pow2(k) }
    function Mask(): nat { Pow2(k) - 1 }
    predicate Single(r: Role) { if r.Producer? then spEnq else scDeq }
    /** How far a side may run ahead of the opposite tail. */
    function Lead(r: Role): nat { if r.Producer? then Mask() else 0 }
  }

  /** One end of the ring: its two words, their positions, and who reserved each position. */
  datatype Side = Side(head: u32, tail: u32, hd: nat, tl: nat, owner: seq<nat>)

  datatype Proc<T> =
    | Idle
      /** Inside a call, `n` reset to the requested count. */
    | Begun(role: Role, max: nat, fixed: bool, table: seq<T>)
      /** The head of the own side is loaded. */
    | HeadRead(role: Role, max: nat, fixed: bool, table: seq<T>, head: u32, hpos: nat)
      /** The tail of the opposite side is loaded too; `room` is what was really available then. */
    | TailRead(role: Role, max: nat, fixed: bool, table: seq<T>, head: u32, hpos: nat,
               opp: u32, opos: nat, room: int)
      /** `n` positions from `start` are reserved, `done` of them copied. */
    | Copying(role: Role, n: nat, table: seq<T>, head: u32, start: nat, done: nat)
      /** All copied and our turn has come: the next step stores the tail. */
    | Publishing(role: Role, n: nat, table: seq<T>, head: u32, start: nat)

  /**
   `log` is what was reserved for each position by a producer; `delivered` what finished
   dequeue calls have returned, in the order of their tail stores.
   */
  datatype State<T> = State(prod: Side, cons: Side, slots: seq<T>, procs: seq<Proc<T>>,
                            log: seq<T>, delivered: seq<T>)
  {
    function Of(r: Role): Side { if r.Producer? then prod else cons }
    function Opp(r: Role): Side { if r.Producer? then cons else prod }
    function With(r: Role, d: Side): State<T> {
      if r.Producer? then this.(prod := d) else this.(cons := d)
    }
  }

  datatype Action<T> =
    | Begin(role: Role, max: nat, fixed: bool, table: seq<T>)
    | LoadHead | LoadOpposite | Refuse | Reserve | Retry | Copy | SeeTail | Publish

  /** free_entries or entries, as the 32-bit subtraction computes it. */
  function Available<T>(c: Config, p: Proc<T>): u32
    requires p.TailRead?
  {
    Wrap(c.Lead(p.role) + p.opp - p.head)
  }

  predicate Refused<T>(c: Config, p: Proc<T>)
    requires p.TailRead?
  {
    p.max > Available(c, p) && (p.fixed || Available(c, p) == 0)
  }

  /** The number of objects the call goes for. */
  function Granted<T>(c: Config, p: Proc<T>): nat
    requires p.TailRead?
  {
    if p.max > Available(c, p) then Available(c, p) else p.max
  }

  /** The index the copy loops use for the i-th object of a reservation. */
  function Slot(c: Config, head: u32, i: nat): nat
  {
    And(Wrap(head + i), c.Mask())
  }

  predicate Engaged<T>(p: Proc<T>, r: Role) { !p.Idle? && p.role == r }

  predicate Holds<T>(p: Proc<T>, r: Role) { (p.Copying? || p.Publishing?) && p.role == r }

  predicate Enabled<T>(c: Config, s: State<T>, t: nat, a: Action<T>)
    requires t < |s.procs|
  {
    var p := s.procs[t];
    match a
    case Begin(role, max, fixed, table) =>
      && p.Idle?
      && (max >= 1 || c.empty)
      && (if role.Producer? then |table| == max else table == [])
      && (c.Single(role) ==> forall u :: 0 <= u < |s.procs| ==> !Engaged(s.procs[u], role))
    case LoadHead => p.Begun?
    case LoadOpposite => p.HeadRead?
    case Refuse => p.TailRead? && Refused(c, p)
    case Reserve => p.TailRead? && !Refused(c, p) && (c.Single(p.role) || s.Of(p.role).head == p.head)
    case Retry => p.TailRead? && !Refused(c, p) && !c.Single(p.role) && s.Of(p.role).head != p.head
    case Copy => p.Copying? && p.done < p.n && |s.slots| == c.Size() && (p.role.Producer? ==> p.done < |p.table|)
    case SeeTail => p.Copying? && p.done == p.n && (c.Single(p.role) || s.Of(p.role).tail == p.head)
    case Publish => p.Publishing?
  }

  function Fill(n: nat, t: nat): (r: seq<nat>)
    ensures |r| == n && forall i :: 0 <= i < n ==> r[i] == t
  {
    seq(n, i => t)
  }

  function SlotInRange(c: Config, head: u32, i: nat): (r: nat)
    requires c.k <= 32
    ensures r == Slot(c, head, i) && r < c.Size()
  {
    WrappedMask(head + i, c.k);
    Slot(c, head, i)
  }

  function Apply<T>(c: Config, s: State<T>, t: nat, a: Action<T>): State<T>
    requires c.k <= 32 && t < |s.procs| && Enabled(c, s, t, a)
  {
    var p := s.procs[t];
    match a
    case Begin(role, max, fixed, table) =>
      s.(procs := s.procs[t := Begun(role, max, fixed, table)])
    case LoadHead =>
      s.(procs := s.procs[t := HeadRead(p.role, p.max, p.fixed, p.table,
                                        s.Of(p.role).head, s.Of(p.role).hd)])
    case LoadOpposite =>
      s.(procs := s.procs[t := TailRead(p.role, p.max, p.fixed, p.table, p.head, p.hpos,
                                        s.Opp(p.role).tail, s.Opp(p.role).tl,
                                        c.Lead(p.role) + s.Opp(p.role).tl - s.Of(p.role).hd)])
    case Refuse => s.(procs := s.procs[t := Idle])
    case Reserve =>
      var n := Granted(c, p);
      var d := s.Of(p.role);
      var table := if p.role.Producer? && n <= |p.table| then p.table[..n] else [];
      s.With(p.role, d.(head := Wrap(p.head + n), hd := d.hd + n, owner := d.owner + Fill(n, t)))
       .(log := s.log + table,
         procs := s.procs[t := Copying(p.role, n, table, p.head, d.hd, 0)])
    case Retry => s.(procs := s.procs[t := Begun(p.role, p.max, p.fixed, p.table)])
    case Copy =>
      var i := SlotInRange(c, p.head, p.done);
      if p.role.Producer? then
        s.(slots := s.slots[i := p.table[p.done]], procs := s.procs[t := p.(done := p.done + 1)])
      else
        s.(procs := s.procs[t := p.(table := p.table + [s.slots[i]], done := p.done + 1)])
    case SeeTail => s.(procs := s.procs[t := Publishing(p.role, p.n, p.table, p.head, p.start)])
    case Publish =>
      var d := s.Of(p.role);
      s.With(p.role, d.(tail := Wrap(p.head + p.n), tl := p.start + p.n))
       .(delivered := if p.role.Consumer? then s.delivered + p.table else s.delivered,
         procs := s.procs[t := Idle])
  }

  ghost predicate Init<T>(c: Config, s: State<T>)
  {
    && s.prod == Side(0, 0, 0, 0, []) && s.cons == Side(0, 0, 0, 0, [])
    && |s.slots| == c.Size() && s.log == [] && s.delivered == []
    && forall t :: 0 <= t < |s.procs| ==> s.procs[t].Idle?
  }

  /** The step is not a swap against a head that moved on by more than `gap` positions since it was loaded. */
  ghost predicate Timely<T>(c: Config, gap: nat, s: State<T>, t: nat, a: Action<T>)
    requires t < |s.procs|
  {
    a.Reserve? && s.procs[t].TailRead? && !c.Single(s.procs[t].role) ==>
      s.Of(s.procs[t].role).hd - s.procs[t].hpos <= gap
  }

  ghost predicate Next<T(!new)>(c: Config, gap: nat, s: State<T>, s': State<T>)
    requires c.k <= 32
  {
    exists t: nat, a :: t < |s.procs| && Enabled(c, s, t, a) && Timely(c, gap, s, t, a) && s' == Apply(c, s, t, a)
  }

  /** States linked by steps from a start state; no swap succeeds after more than `gap` positions. */
  ghost predicate IsRun<T(!new)>(c: Config, gap: nat, run: seq<State<T>>)
    requires c.k <= 32
  {
    && |run| > 0 && Init(c, run[0])
    && forall i :: 0 <= i < |run| - 1 ==> Next(c, gap, run[i], run[i + 1])
  }

  /** Both sides have one user at a time, or nobody asks for nothing and no swap succeeds after a lap of 2^32. */
  ghost predicate Careful(c: Config, gap: nat)
  {
    (c.spEnq && c.scDeq) || (!c.empty && gap < U32)
  }

  // ---------------------------------------------------------------- the invariant

  /** The counters never cross, and the ring never holds more than mask objects. */
  ghost predicate Ordered<T>(c: Config, s: State<T>)
  {
    s.cons.tl <= s.cons.hd <= s.prod.tl <= s.prod.hd <= s.cons.tl + c.Mask()
  }

  /** The 32-bit words are the positions modulo 2^32. */
  ghost predicate Tracks(d: Side)
  {
    d.head == Wrap(d.hd) && d.tail == Wrap(d.tl) && |d.owner| == d.hd && d.tl <= d.hd
  }

  ghost predicate Shape<T>(c: Config, s: State<T>)
  {
    && Tracks(s.prod) && Tracks(s.cons)
    && |s.slots| == c.Size() && |s.log| == s.prod.hd
    && Ordered(c, s)
  }

  ghost predicate HeadOk<T>(c: Config, s: State<T>, p: Proc<T>)
    requires p.HeadRead? || p.TailRead?
  {
    && p.head == Wrap(p.hpos)
    && p.hpos <= s.Of(p.role).hd
    && (c.Single(p.role) ==> p.hpos == s.Of(p.role).hd)
  }

  /** A reservation: its positions are between tail and head and belong to the caller. */
  ghost predicate Reserved<T>(c: Config, s: State<T>, t: nat, p: Proc<T>)
    requires p.Copying? || p.Publishing?
  {
    var d := s.Of(p.role);
    && p.head == Wrap(p.start)
    && (if c.Single(p.role) then p.start == d.tl && p.start + p.n == d.hd else p.n >= 1)
    && d.tl <= p.start && p.start + p.n <= d.hd
    && |d.owner| == d.hd
    && (forall i {:trigger d.owner[i]} :: p.start <= i < p.start + p.n ==> d.owner[i] == t)
  }

  ghost predicate ProcOk<T>(c: Config, s: State<T>, t: nat, p: Proc<T>)
  {
    match p
    case Idle => true
    case Begun(role, max, _, table) =>
      (max >= 1 || c.Single(role)) && (role.Producer? ==> |table| == max)
    case HeadRead(role, max, _, table, head, hpos) =>
      && (max >= 1 || c.Single(role)) && (role.Producer? ==> |table| == max)
      && HeadOk(c, s, p)
    case TailRead(role, max, _, table, head, hpos, opp, opos, room) =>
      && (max >= 1 || c.Single(role)) && (role.Producer? ==> |table| == max)
      && HeadOk(c, s, p)
      && opp == Wrap(opos) && opos <= s.Opp(role).tl
      && 0 <= room <= c.Lead(role) + opos - hpos
      && (hpos == s.Of(role).hd ==> c.Lead(role) + opos - hpos == room <= c.Mask())
    case Copying(role, n, table, head, start, done) =>
      && Reserved(c, s, t, p)
      && done <= n && start + n <= |s.log|
      && table == s.log[start..start + (if role.Producer? then n else done)]
    case Publishing(role, n, table, head, start) =>
      && Reserved(c, s, t, p)
      && start == s.Of(role).tl && start + n <= |s.log|
      && table == s.log[start..start + n]
  }

  /** Every position between tail and head is inside the reservation of its owner. */
  ghost predicate Covered<T>(s: State<T>, r: Role)
  {
    var d := s.Of(r);
    && |d.owner| == d.hd
    && forall i :: d.tl <= i < d.hd ==>
         && d.owner[i] < |s.procs|
         && Holds(s.procs[d.owner[i]], r)
         && s.procs[d.owner[i]].start <= i < s.procs[d.owner[i]].start + s.procs[d.owner[i]].n
  }

  ghost predicate Alone<T>(c: Config, s: State<T>, r: Role)
  {
    c.Single(r) ==>
      forall t, u :: 0 <= t < u < |s.procs| ==> !(Engaged(s.procs[t], r) && Engaged(s.procs[u], r))
  }

  /** Position i has been filled by its producer. */
  ghost predicate Written<T>(s: State<T>, i: nat)
    requires i < |s.prod.owner|
  {
    || i < s.prod.tl
    || (s.prod.owner[i] < |s.procs| &&
        var p := s.procs[s.prod.owner[i]];
        && Holds(p, Producer)
        && (p.Copying? ==> i < p.start + p.done))
  }

  /** Every filled position that is not released still has its object in its slot. */
  ghost predicate SlotsOk<T>(c: Config, s: State<T>)
  {
    && |s.slots| == c.Size() && |s.log| == s.prod.hd == |s.prod.owner|
    && forall i :: s.cons.tl <= i < s.prod.hd && Written(s, i) ==> s.slots[i % c.Size()] == s.log[i]
  }

  ghost predicate Procs<T>(c: Config, s: State<T>)
  {
    forall t :: 0 <= t < |s.procs| ==> ProcOk(c, s, t, s.procs[t])
  }

  /** What finished dequeues returned is the first cons.tail objects reserved, in order. */
  ghost predicate Fifo<T>(s: State<T>)
  {
    s.cons.tl <= |s.log| && s.delivered == s.log[..s.cons.tl]
  }

  ghost predicate Inv<T>(c: Config, s: State<T>)
  {
    && Shape(c, s) && Procs(c, s)
    && Covered(s, Producer) && Covered(s, Consumer)
    && Alone(c, s, Producer) && Alone(c, s, Consumer)
    && SlotsOk(c, s) && Fifo(s)
  }

  // ---------------------------------------------------------------- every step keeps it

  lemma InitInv<T>(c: Config, s: State<T>)
    requires Init(c, s)
    ensures Inv(c, s)
  {
  }

  /** A step that only moves a thread between states without a reservation. */
  lemma QuietStep<T>(c: Config, s: State<T>, t: nat, p: Proc<T>, s': State<T>)
    requires Inv(c, s) && t < |s.procs|
    requires s' == s.(procs := s.procs[t := p])
    requires !s.procs[t].Copying? && !s.procs[t].Publishing? && !p.Copying? && !p.Publishing?
    requires ProcOk(c, s, t, p)
    requires Alone(c, s', Producer) && Alone(c, s', Consumer)
    ensures Inv(c, s')
  {
    forall u | 0 <= u < |s'.procs|
      ensures ProcOk(c, s', u, s'.procs[u])
    {
      assert ProcOk(c, s, u, s'.procs[u]);
    }
    forall i | s.cons.tl <= i < s.prod.hd && Written(s', i)
      ensures Written(s, i)
    {
    }
  }

  lemma BeginStep<T>(c: Config, s: State<T>, t: nat, a: Action<T>)
    requires c.Valid() && (c.empty ==> c.spEnq && c.scDeq) && Inv(c, s) && t < |s.procs|
    requires a.Begin? && Enabled(c, s, t, a)
    ensures Inv(c, Apply(c, s, t, a))
  {
    QuietStep(c, s, t, Begun(a.role, a.max, a.fixed, a.table), Apply(c, s, t, a));
  }

  lemma LoadStep<T>(c: Config, s: State<T>, t: nat, a: Action<T>)
    requires c.Valid() && Inv(c, s) && t < |s.procs|
    requires (a.LoadHead? || a.LoadOpposite? || a.Refuse? || a.Retry?) && Enabled(c, s, t, a)
    ensures Inv(c, Apply(c, s, t, a))
  {
    var s' := Apply(c, s, t, a);
    assert ProcOk(c, s, t, s.procs[t]);
    QuietStep(c, s, t, s'.procs[t], s');
  }

  /** When the compare-and-swap succeeds, the loaded head is the current one exactly if less than a lap has passed. */
  lemma HeadIsCurrent<T>(c: Config, s: State<T>, t: nat)
    requires c.Valid() && Inv(c, s) && t < |s.procs| && Enabled(c, s, t, Reserve)
    ensures s.procs[t].hpos == s.Of(s.procs[t].role).hd <==> Timely(c, U32 - 1, s, t, Reserve)
  {
    var p := s.procs[t];
    assert ProcOk(c, s, t, p);
    if !c.Single(p.role) && s.Of(p.role).hd - p.hpos < U32 {
      ModInjective(p.hpos, s.Of(p.role).hd, U32);
    }
  }

  /**
   The 32-bit subtraction is exact when the compare-and-swap succeeds: it is the room
   there was at the moment the opposite tail was loaded, and there still is that much.
   */
  lemma ReservationExact<T>(c: Config, s: State<T>, t: nat)
    requires c.Valid() && Inv(c, s) && t < |s.procs| && Enabled(c, s, t, Reserve)
    requires Timely(c, U32 - 1, s, t, Reserve)
    ensures Available(c, s.procs[t]) == s.procs[t].room
    ensures Granted(c, s.procs[t]) == if s.procs[t].max <= s.procs[t].room then s.procs[t].max else s.procs[t].room
    ensures s.procs[t].max >= 1 ==> Granted(c, s.procs[t]) >= 1
    ensures s.Of(s.procs[t].role).hd + Granted(c, s.procs[t]) <= c.Lead(s.procs[t].role) + s.Opp(s.procs[t].role).tl
  {
    var p := s.procs[t];
    assert ProcOk(c, s, t, p);
    HeadIsCurrent(c, s, t);
    assert 0 <= p.room < U32 by { MaskBound(c); }
    ExactDifference(c.Lead(p.role), p.opos, p.hpos);
  }

  lemma MaskBound(c: Config)
    requires c.Valid()
    ensures c.Size() <= 0x800_0000
  {
    Pow2Small();
    Pow2Monotone(c.k, 27);
  }

  /** Both sides and the log only grow from s to s'. */
  ghost predicate Grows<T>(s: State<T>, s': State<T>)
  {
    && s.log <= s'.log
    && s.prod.owner <= s'.prod.owner && s.cons.owner <= s'.cons.owner
    && s.prod.hd <= s'.prod.hd == |s'.prod.owner| && s.cons.hd <= s'.cons.hd == |s'.cons.owner|
    && s.prod.tl <= s'.prod.tl && s.cons.tl <= s'.cons.tl
  }

  /** What a growing step must respect for the state of another thread to stay sound. */
  lemma ProcFrame<T>(c: Config, s: State<T>, s': State<T>, u: nat, q: Proc<T>)
    requires ProcOk(c, s, u, q) && Grows(s, s')
    requires !q.Idle? && !q.Begun? && c.Single(q.role) ==>
               s'.Of(q.role).hd == s.Of(q.role).hd && s'.Of(q.role).tl == s.Of(q.role).tl
    requires q.Copying? ==> s'.Of(q.role).tl <= q.start
    requires q.Publishing? ==> s'.Of(q.role).tl == q.start
    ensures ProcOk(c, s', u, q)
  {
    if q.Copying? || q.Publishing? {
      var m := if q.Copying? && q.role.Consumer? then q.done else q.n;
      LogKept(s.log, s'.log, q.start, q.start + m);
      ReservedFrame(c, s, s', u, q);
    }
  }

  lemma LogKept<T>(log: seq<T>, log': seq<T>, i: nat, j: nat)
    requires log <= log' && i <= j <= |log|
    ensures log'[i..j] == log[i..j]
  {
  }

  lemma ReservedFrame<T>(c: Config, s: State<T>, s': State<T>, u: nat, q: Proc<T>)
    requires (q.Copying? || q.Publishing?) && Reserved(c, s, u, q)
    requires s.Of(q.role).owner <= s'.Of(q.role).owner && |s'.Of(q.role).owner| == s'.Of(q.role).hd
    requires s'.Of(q.role).tl <= q.start
    requires c.Single(q.role) ==> s'.Of(q.role).hd == s.Of(q.role).hd && s'.Of(q.role).tl == s.Of(q.role).tl
    ensures Reserved(c, s', u, q)
  {
  }

  /** A reservation of n positions by thread t, once the arithmetic is known to be exact. */
  ghost predicate CanReserve<T>(c: Config, s: State<T>, t: nat, n: nat)
  {
    && t < |s.procs| && s.procs[t].TailRead?
    && var p := s.procs[t];
       && (if c.Single(p.role) then s.Of(p.role).tl == s.Of(p.role).hd else n >= 1)
       && p.head == Wrap(s.Of(p.role).hd)
       && (p.role.Producer? ==> n <= |p.table|)
       && s.Of(p.role).hd + n <= c.Lead(p.role) + s.Opp(p.role).tl
  }

  ghost function AfterReserve<T>(c: Config, s: State<T>, t: nat, n: nat): State<T>
    requires CanReserve(c, s, t, n)
  {
    var p := s.procs[t];
    var d := s.Of(p.role);
    var table := if p.role.Producer? then p.table[..n] else [];
    s.With(p.role, d.(head := Wrap(d.hd + n), hd := d.hd + n, owner := d.owner + Fill(n, t)))
     .(log := s.log + table, procs := s.procs[t := Copying(p.role, n, table, p.head, d.hd, 0)])
  }

  lemma SomeHolder<T>(s: State<T>, r: Role) returns (u: nat)
    requires Covered(s, r) && s.Of(r).tl < s.Of(r).hd
    ensures u < |s.procs| && Holds(s.procs[u], r)
  {
    u := s.Of(r).owner[s.Of(r).tl];
  }

  /** A side with one user at a time has no reservation while that user is still loading. */
  lemma NothingReserved<T>(c: Config, s: State<T>, t: nat, r: Role)
    requires Covered(s, r) && Alone(c, s, r) && c.Single(r) && s.Of(r).tl <= s.Of(r).hd
    requires t < |s.procs| && Engaged(s.procs[t], r) && !Holds(s.procs[t], r)
    ensures s.Of(r).tl == s.Of(r).hd
  {
    if s.Of(r).tl < s.Of(r).hd {
      var u := SomeHolder(s, r);
      assert false;
    }
  }

  lemma ReserveEffect<T>(c: Config, s: State<T>, t: nat)
    requires c.Valid() && Inv(c, s) && t < |s.procs| && Enabled(c, s, t, Reserve)
    requires Timely(c, U32 - 1, s, t, Reserve)
    ensures CanReserve(c, s, t, Granted(c, s.procs[t]))
    ensures Apply(c, s, t, Reserve) == AfterReserve(c, s, t, Granted(c, s.procs[t]))
  {
    assert ProcOk(c, s, t, s.procs[t]);
    HeadIsCurrent(c, s, t);
    ReservationExact(c, s, t);
    if c.Single(s.procs[t].role) {
      NothingReserved(c, s, t, s.procs[t].role);
    }
    ReserveApplies(c, s, t);
  }

  lemma ReserveApplies<T>(c: Config, s: State<T>, t: nat)
    requires c.Valid() && t < |s.procs| && Enabled(c, s, t, Reserve)
    requires CanReserve(c, s, t, Granted(c, s.procs[t]))
    requires s.procs[t].hpos == s.Of(s.procs[t].role).hd && s.procs[t].head == Wrap(s.procs[t].hpos)
    ensures Apply(c, s, t, Reserve) == AfterReserve(c, s, t, Granted(c, s.procs[t]))
  {
    WrapPlus(s.procs[t].hpos, Granted(c, s.procs[t]));
  }

  lemma ReserveGrows<T>(c: Config, s: State<T>, t: nat, n: nat)
    requires Shape(c, s) && Fifo(s) && CanReserve(c, s, t, n)
    ensures var s' := AfterReserve(c, s, t, n); Grows(s, s') && Shape(c, s') && Fifo(s')
  {
    var s' := AfterReserve(c, s, t, n);
    assert s'.log[..s.cons.tl] == s.log[..s.cons.tl];
  }

  lemma ReserveOwn<T>(c: Config, s: State<T>, t: nat, n: nat)
    requires Shape(c, s) && CanReserve(c, s, t, n)
    ensures ProcOk(c, AfterReserve(c, s, t, n), t, AfterReserve(c, s, t, n).procs[t])
  {
    var p, s' := s.procs[t], AfterReserve(c, s, t, n);
    var d, d' := s.Of(p.role), s'.Of(p.role);
    assert forall i {:trigger d'.owner[i]} :: d.hd <= i < d.hd + n ==> d'.owner[i] == t;
    if p.role.Producer? {
      assert s'.log[d.hd..d.hd + n] == p.table[..n];
    }
  }

  /** The state of another thread stays sound. */
  lemma ReserveOther<T>(c: Config, s: State<T>, t: nat, n: nat, u: nat)
    requires CanReserve(c, s, t, n) && Grows(s, AfterReserve(c, s, t, n)) && u < |s.procs| && u != t
    requires ProcOk(c, s, u, s.procs[u]) && Alone(c, s, s.procs[t].role)
    ensures ProcOk(c, AfterReserve(c, s, t, n), u, s.procs[u])
  {
    ProcFrame(c, s, AfterReserve(c, s, t, n), u, s.procs[u]);
  }

  lemma ReserveProcs<T>(c: Config, s: State<T>, t: nat, n: nat)
    requires Shape(c, s) && Procs(c, s) && Fifo(s) && CanReserve(c, s, t, n) && Alone(c, s, s.procs[t].role)
    ensures Procs(c, AfterReserve(c, s, t, n))
  {
    var s' := AfterReserve(c, s, t, n);
    ReserveGrows(c, s, t, n);
    ReserveOwn(c, s, t, n);
    forall u | 0 <= u < |s'.procs|
      ensures ProcOk(c, s', u, s'.procs[u])
    {
      if u != t {
        ReserveOther(c, s, t, n, u);
      }
    }
  }

  lemma ReserveCovers<T>(c: Config, s: State<T>, t: nat, n: nat, r: Role)
    requires CanReserve(c, s, t, n) && Covered(s, r)
    ensures Covered(AfterReserve(c, s, t, n), r)
  {
    var s' := AfterReserve(c, s, t, n);
    var d, d' := s.Of(r), s'.Of(r);
    forall i | d'.tl <= i < d'.hd
      ensures d'.owner[i] == if i < d.hd then d.owner[i] else t
      ensures i < d.hd ==> s'.procs[d.owner[i]] == s.procs[d.owner[i]]
    {
    }
  }

  lemma ReserveAlone<T>(c: Config, s: State<T>, t: nat, n: nat, r: Role)
    requires CanReserve(c, s, t, n) && Alone(c, s, r)
    ensures Alone(c, AfterReserve(c, s, t, n), r)
  {
  }

  lemma ReserveSlots<T>(c: Config, s: State<T>, t: nat, n: nat)
    requires CanReserve(c, s, t, n) && Shape(c, s) && Covered(s, Producer) && SlotsOk(c, s)
    ensures SlotsOk(c, AfterReserve(c, s, t, n))
  {
    var s' := AfterReserve(c, s, t, n);
    forall i | s'.cons.tl <= i < s'.prod.hd && Written(s', i)
      ensures i < s.prod.hd && Written(s, i)
    {
    }
  }

  lemma ReserveStep<T>(c: Config, s: State<T>, t: nat)
    requires c.Valid() && Inv(c, s) && t < |s.procs| && Enabled(c, s, t, Reserve)
    requires Timely(c, U32 - 1, s, t, Reserve)
    ensures Inv(c, Apply(c, s, t, Reserve))
  {
    ReserveEffect(c, s, t);
    var n := Granted(c, s.procs[t]);
    ReserveGrows(c, s, t, n);
    ReserveProcs(c, s, t, n);
    ReserveCovers(c, s, t, n, Producer);
    ReserveCovers(c, s, t, n, Consumer);
    ReserveAlone(c, s, t, n, Producer);
    ReserveAlone(c, s, t, n, Consumer);
    ReserveSlots(c, s, t, n);
  }

  /** The masked index of a reservation is its position modulo the size. */
  lemma SlotOfPosition<T>(c: Config, p: Proc<T>, i: nat)
    requires c.Valid() && (p.Copying? || p.Publishing?) && p.head == Wrap(p.start)
    ensures Slot(c, p.head, i) == (p.start + i) % c.Size()
  {
    WrapPlus(p.start, i);
    WrappedMask(p.start + i, c.k);
  }

  lemma CopyOwn<T>(c: Config, s: State<T>, t: nat)
    requires c.Valid() && t < |s.procs| && Enabled(c, s, t, Copy) && ProcOk(c, s, t, s.procs[t])
    requires s.procs[t].role.Consumer? ==>
               s.slots[SlotInRange(c, s.procs[t].head, s.procs[t].done)] == s.log[s.procs[t].start + s.procs[t].done]
    ensures ProcOk(c, Apply(c, s, t, Copy), t, Apply(c, s, t, Copy).procs[t])
  {
    var p, s' := s.procs[t], Apply(c, s, t, Copy);
    if p.role.Consumer? {
      var at := p.start + p.done;
      assert s.log[p.start..at] + [s.log[at]] == s.log[p.start..at + 1];
    }
    CopyDone(c, s, s', t, p, s'.procs[t].table);
  }

  lemma CopyDone<T>(c: Config, s: State<T>, s': State<T>, t: nat, p: Proc<T>, table: seq<T>)
    requires p.Copying? && p.done < p.n && ProcOk(c, s, t, p)
    requires s'.prod == s.prod && s'.cons == s.cons && s'.log == s.log
    requires table == s.log[p.start..p.start + (if p.role.Producer? then p.n else p.done + 1)]
    ensures ProcOk(c, s', t, p.(table := table, done := p.done + 1))
  {
  }

  /** A consumer finds in its slot the object of its position. */
  lemma CopyReads<T>(c: Config, s: State<T>, t: nat)
    requires c.Valid() && Shape(c, s) && SlotsOk(c, s) && t < |s.procs| && Enabled(c, s, t, Copy)
    requires ProcOk(c, s, t, s.procs[t]) && s.procs[t].role.Consumer?
    ensures var p := s.procs[t];
            s.slots[SlotInRange(c, p.head, p.done)] == s.log[p.start + p.done]
  {
    var p := s.procs[t];
    SlotOfPosition(c, p, p.done);
    assert Written(s, p.start + p.done);
  }

  lemma CopyProcs<T>(c: Config, s: State<T>, t: nat)
    requires c.Valid() && Inv(c, s) && t < |s.procs| && Enabled(c, s, t, Copy)
    ensures Procs(c, Apply(c, s, t, Copy))
  {
    var s' := Apply(c, s, t, Copy);
    assert ProcOk(c, s, t, s.procs[t]);
    if s.procs[t].role.Consumer? {
      CopyReads(c, s, t);
    }
    CopyOwn(c, s, t);
    forall u | 0 <= u < |s'.procs| && u != t
      ensures ProcOk(c, s', u, s'.procs[u])
    {
      assert ProcOk(c, s, u, s.procs[u]);
      SidesKept(c, s, s', u);
    }
  }

  /** A step that changes neither side nor the log leaves the other threads sound. */
  lemma SidesKept<T>(c: Config, s: State<T>, s': State<T>, u: nat)
    requires u < |s.procs| && ProcOk(c, s, u, s.procs[u])
    requires s'.prod == s.prod && s'.cons == s.cons && s'.log == s.log
    ensures ProcOk(c, s', u, s.procs[u])
  {
  }

  lemma CopySlots<T>(c: Config, s: State<T>, t: nat)
    requires c.Valid() && Inv(c, s) && t < |s.procs| && Enabled(c, s, t, Copy)
    ensures SlotsOk(c, Apply(c, s, t, Copy))
  {
    var s' := Apply(c, s, t, Copy);
    assert ProcOk(c, s, t, s.procs[t]);
    SlotOfPosition(c, s.procs[t], s.procs[t].done);
    forall i | s.cons.tl <= i < s.prod.hd && Written(s', i)
      ensures s'.slots[i % c.Size()] == s'.log[i]
    {
      CopySlotAt(c, s, t, s', i);
    }
  }

  /** One filled position after a copy: the one just copied, or one filled before in another slot. */
  lemma CopySlotAt<T>(c: Config, s: State<T>, t: nat, s': State<T>, i: nat)
    requires c.Valid() && Shape(c, s) && SlotsOk(c, s) && t < |s.procs| && Enabled(c, s, t, Copy)
    requires s' == Apply(c, s, t, Copy)
    requires ProcOk(c, s, t, s.procs[t]) && s.cons.tl <= i < s.prod.hd && Written(s', i)
    requires Slot(c, s.procs[t].head, s.procs[t].done) == (s.procs[t].start + s.procs[t].done) % c.Size()
    ensures i % c.Size() < |s'.slots| && i < |s'.log| && s'.slots[i % c.Size()] == s'.log[i]
  {
    var p := s.procs[t];
    var at := p.start + p.done;
    if p.role.Producer? && i == at {
      assert p.table[p.done] == s.log[at];
    } else {
      assert Written(s, i);
      if p.role.Producer? { ModDistinct(i, at, c.Size()); }
    }
  }

  /** Copying, and passing the wait loop, change neither side nor who holds what. */
  lemma HolderStep<T>(c: Config, s: State<T>, t: nat, p: Proc<T>, s': State<T>)
    requires Inv(c, s) && t < |s.procs|
    requires s.procs[t].Copying? && (p.Copying? || p.Publishing?)
    requires p.role == s.procs[t].role && p.n == s.procs[t].n && p.start == s.procs[t].start
    requires s'.prod == s.prod && s'.cons == s.cons && s'.procs == s.procs[t := p]
    ensures forall r :: Covered(s', r) && Alone(c, s', r)
  {
    HolderSide(c, s, t, p, s', Producer);
    HolderSide(c, s, t, p, s', Consumer);
    forall r
      ensures Covered(s', r) && Alone(c, s', r)
    {
      assert r == Producer || r == Consumer;
    }
  }

  lemma HolderSide<T>(c: Config, s: State<T>, t: nat, p: Proc<T>, s': State<T>, r: Role)
    requires Covered(s, r) && Alone(c, s, r) && t < |s.procs|
    requires s.procs[t].Copying? && (p.Copying? || p.Publishing?)
    requires p.role == s.procs[t].role && p.n == s.procs[t].n && p.start == s.procs[t].start
    requires s'.prod == s.prod && s'.cons == s.cons && s'.procs == s.procs[t := p]
    ensures Covered(s', r) && Alone(c, s', r)
  {
  }

  lemma CopyStep<T>(c: Config, s: State<T>, t: nat)
    requires c.Valid() && Inv(c, s) && t < |s.procs| && Enabled(c, s, t, Copy)
    ensures Inv(c, Apply(c, s, t, Copy))
  {
    var s' := Apply(c, s, t, Copy);
    CopyProcs(c, s, t);
    CopySlots(c, s, t);
    HolderStep(c, s, t, s'.procs[t], s');
  }

  lemma SeeTailStep<T>(c: Config, s: State<T>, t: nat)
    requires c.Valid() && Inv(c, s) && t < |s.procs| && Enabled(c, s, t, SeeTail)
    ensures Inv(c, Apply(c, s, t, SeeTail))
  {
    var p, s' := s.procs[t], Apply(c, s, t, SeeTail);
    assert ProcOk(c, s, t, p);
    TurnIsOurs(c, s, t);
    HolderStep(c, s, t, s'.procs[t], s');
    forall u | 0 <= u < |s'.procs| && u != t
      ensures ProcOk(c, s', u, s'.procs[u])
    {
      assert ProcOk(c, s, u, s.procs[u]);
      SidesKept(c, s, s', u);
    }
    SeeTailSlots(c, s, t);
  }

  lemma SeeTailSlots<T>(c: Config, s: State<T>, t: nat)
    requires c.Valid() && SlotsOk(c, s) && t < |s.procs| && Enabled(c, s, t, SeeTail)
    requires ProcOk(c, s, t, s.procs[t]) && Covered(s, Producer)
    ensures SlotsOk(c, Apply(c, s, t, SeeTail))
  {
    var s' := Apply(c, s, t, SeeTail);
    forall i | s.cons.tl <= i < s.prod.hd && Written(s', i)
      ensures Written(s, i)
    {
    }
  }

  /** The wait loop ends only when every earlier reservation of the side is published. */
  lemma TurnIsOurs<T>(c: Config, s: State<T>, t: nat)
    requires c.Valid() && Inv(c, s) && t < |s.procs| && Enabled(c, s, t, SeeTail)
    ensures s.procs[t].start == s.Of(s.procs[t].role).tl
  {
    var p := s.procs[t];
    var d := s.Of(p.role);
    assert ProcOk(c, s, t, p);
    if c.Single(p.role) {
    } else {
      MaskBound(c);
      ModInjective(d.tl, p.start, U32);
    }
  }

  /** A reservation of another thread lies behind the one being published. */
  lemma OthersBehind<T>(c: Config, s: State<T>, t: nat, u: nat)
    requires Inv(c, s) && t < |s.procs| && u < |s.procs| && u != t
    requires s.procs[t].Publishing? && Holds(s.procs[u], s.procs[t].role)
    ensures s.procs[u].Copying? && s.procs[u].start >= s.procs[t].start + s.procs[t].n
  {
    var p, q := s.procs[t], s.procs[u];
    assert ProcOk(c, s, t, p) && ProcOk(c, s, u, q);
    assert s.Of(p.role).owner[q.start] == u;
    assert s.Of(p.role).owner[p.start] == t;
  }

  lemma PublishProcs<T>(c: Config, s: State<T>, t: nat)
    requires c.Valid() && Inv(c, s) && t < |s.procs| && Enabled(c, s, t, Publish)
    ensures Procs(c, Apply(c, s, t, Publish))
  {
    var p, s' := s.procs[t], Apply(c, s, t, Publish);
    assert ProcOk(c, s, t, p);
    forall u | 0 <= u < |s'.procs| && u != t
      ensures ProcOk(c, s', u, s'.procs[u])
    {
      if Holds(s.procs[u], p.role) {
        OthersBehind(c, s, t, u);
      }
      assert Alone(c, s, p.role);
      PublishOther(c, s, t, u, s.procs[u]);
    }
  }

  lemma PublishOther<T>(c: Config, s: State<T>, t: nat, u: nat, q: Proc<T>)
    requires c.Valid() && Tracks(s.prod) && Tracks(s.cons) && t < |s.procs| && Enabled(c, s, t, Publish)
    requires ProcOk(c, s, t, s.procs[t]) && ProcOk(c, s, u, q)
    requires Holds(q, s.procs[t].role) ==> q.Copying? && q.start >= s.procs[t].start + s.procs[t].n
    requires c.Single(s.procs[t].role) ==> !Engaged(q, s.procs[t].role)
    ensures ProcOk(c, Apply(c, s, t, Publish), u, q)
  {
    var s' := Apply(c, s, t, Publish);
    assert Grows(s, s');
    ProcFrame(c, s, s', u, q);
  }

  lemma PublishCovers<T>(c: Config, s: State<T>, t: nat, r: Role)
    requires c.Valid() && Inv(c, s) && t < |s.procs| && Enabled(c, s, t, Publish)
    ensures Covered(Apply(c, s, t, Publish), r) && Alone(c, Apply(c, s, t, Publish), r)
  {
    assert ProcOk(c, s, t, s.procs[t]);
    assert Covered(s, r) && Alone(c, s, r);
  }

  lemma PublishSlots<T>(c: Config, s: State<T>, t: nat)
    requires c.Valid() && Shape(c, s) && SlotsOk(c, s) && t < |s.procs| && Enabled(c, s, t, Publish)
    requires ProcOk(c, s, t, s.procs[t])
    ensures SlotsOk(c, Apply(c, s, t, Publish))
  {
    var s' := Apply(c, s, t, Publish);
    forall i | s'.cons.tl <= i < s'.prod.hd && Written(s', i)
      ensures Written(s, i)
    {
      if i < s'.prod.tl && s.prod.tl <= i {
        assert s.prod.owner[i] == t;
      }
    }
  }

  lemma PublishShape<T>(c: Config, s: State<T>, t: nat)
    requires c.Valid() && Shape(c, s) && t < |s.procs| && Enabled(c, s, t, Publish)
    requires ProcOk(c, s, t, s.procs[t])
    ensures Shape(c, Apply(c, s, t, Publish))
  {
    WrapPlus(s.procs[t].start, s.procs[t].n);
  }

  lemma PublishFifo<T>(c: Config, s: State<T>, t: nat)
    requires c.Valid() && Shape(c, s) && Fifo(s) && t < |s.procs| && Enabled(c, s, t, Publish)
    requires ProcOk(c, s, t, s.procs[t])
    ensures Fifo(Apply(c, s, t, Publish))
  {
    var p := s.procs[t];
    if p.role.Consumer? {
      assert s.log[..p.start] + s.log[p.start..p.start + p.n] == s.log[..p.start + p.n];
    }
  }

  lemma PublishStep<T>(c: Config, s: State<T>, t: nat)
    requires c.Valid() && Inv(c, s) && t < |s.procs| && Enabled(c, s, t, Publish)
    ensures Inv(c, Apply(c, s, t, Publish))
  {
    assert ProcOk(c, s, t, s.procs[t]);
    PublishShape(c, s, t);
    PublishProcs(c, s, t);
    PublishCovers(c, s, t, Producer);
    PublishCovers(c, s, t, Consumer);
    PublishSlots(c, s, t);
    PublishFifo(c, s, t);
  }

  lemma StepInv<T(!new)>(c: Config, gap: nat, s: State<T>, s': State<T>)
    requires c.Valid() && Careful(c, gap) && Inv(c, s) && Next(c, gap, s, s')
    ensures Inv(c, s')
  {
    var t: nat, a :| t < |s.procs| && Enabled(c, s, t, a) && Timely(c, gap, s, t, a) && s' == Apply(c, s, t, a);
    match a
    case Begin(_, _, _, _) => BeginStep(c, s, t, a);
    case Reserve => ReserveStep(c, s, t);
    case Copy => CopyStep(c, s, t);
    case SeeTail => SeeTailStep(c, s, t);
    case Publish => PublishStep(c, s, t);
    case _ => LoadStep(c, s, t, a);
  }

  lemma {:induction false} RunInv<T(!new)>(c: Config, gap: nat, run: seq<State<T>>)
    requires c.Valid() && Careful(c, gap) && IsRun(c, gap, run)
    ensures Inv(c, run[|run| - 1])
  {
    if |run| == 1 {
      InitInv(c, run[0]);
    } else {
      var before := run[..|run| - 1];
      assert IsRun(c, gap, before);
      RunInv(c, gap, before);
      StepInv(c, gap, run[|run| - 2], run[|run| - 1]);
    }
  }

  // ---------------------------------------------------------------- a ring of one slot

  ghost predicate IdleHands<T>(p: Proc<T>)
  {
    match p
    case Idle => true
    case Begun(role, max, _, table) => role.Producer? ==> |table| == max
    case HeadRead(role, max, _, table, head, _) => head == 0 && (role.Producer? ==> |table| == max)
    case TailRead(role, max, _, table, head, _, opp, _, room) =>
      head == 0 && opp == 0 && room == 0 && (role.Producer? ==> |table| == max)
    case Copying(_, n, table, head, start, _) => n == 0 && table == [] && head == 0 && start == 0
    case Publishing(_, n, table, head, start) => n == 0 && table == [] && head == 0 && start == 0
  }

  /** A ring of one slot has no room at all: its mask is zero. */
  ghost predicate Still<T>(s: State<T>)
  {
    && s.prod == Side(0, 0, 0, 0, []) && s.cons == Side(0, 0, 0, 0, [])
    && s.log == [] && s.delivered == []
    && forall t :: 0 <= t < |s.procs| ==> IdleHands(s.procs[t])
  }

  /** Only empty requests pass, and they change nothing. */
  lemma StillReserve<T>(c: Config, s: State<T>, t: nat)
    requires c.k == 0 && Still(s) && t < |s.procs| && Enabled(c, s, t, Reserve)
    ensures Still(Apply(c, s, t, Reserve))
  {
    var p, s' := s.procs[t], Apply(c, s, t, Reserve);
    assert IdleHands(p);
    assert Available(c, p) == 0 && Granted(c, p) == 0;
    assert Fill(0, t) == [];
    assert s'.procs[t] == Copying(p.role, 0, [], 0, 0, 0);
  }

  lemma StillOther<T>(c: Config, s: State<T>, t: nat, a: Action<T>)
    requires c.k == 0 && Still(s) && t < |s.procs| && Enabled(c, s, t, a) && !a.Reserve?
    ensures Still(Apply(c, s, t, a))
  {
    var s' := Apply(c, s, t, a);
    assert IdleHands(s.procs[t]);
    assert IdleHands(s'.procs[t]);
  }

  lemma StillStep<T(!new)>(c: Config, gap: nat, s: State<T>, s': State<T>)
    requires c.k == 0 && Still(s) && Next(c, gap, s, s')
    ensures Still(s')
  {
    var t: nat, a :| t < |s.procs| && Enabled(c, s, t, a) && Timely(c, gap, s, t, a) && s' == Apply(c, s, t, a);
    if a.Reserve? {
      StillReserve(c, s, t);
    } else {
      StillOther(c, s, t, a);
    }
  }

  lemma {:induction false} StillRun<T(!new)>(c: Config, gap: nat, run: seq<State<T>>)
    requires c.k == 0 && IsRun(c, gap, run)
    ensures Still(run[|run| - 1])
  {
    if |run| == 1 {
    } else {
      var before := run[..|run| - 1];
      assert IsRun(c, gap, before);
      StillRun(c, gap, before);
      StillStep(c, gap, run[|run| - 2], run[|run| - 1]);
    }
  }
}
